/**
 * The task store as the page keeps it: the global `tasks` array and the two
 * side maps held in local storage (the custom-subcategory registry and the
 * saved snapshots of the subcategory switch). Every handler of the page that
 * changes them is a method here; each states its new state through the
 * functions of tasks.dfy, mutations.dfy, subcategories.dfy and repair.dfy,
 * whose properties are proved there.
 */
module Store {
  import opened Wrappers
  import opened Text
  import opened Categories
  import opened Tasks
  import opened Mutations
  import opened Subcategories
  import opened Repair

  /** Whether `toggleSubcategoryActiveByName` reaches its end (and so calls
      `saveTasks`): there is a name and some task is relevant to it. */
  predicate SubToggleSaves(ts: seq<Task>, category: int, subName: Option<string>) {
    var name := ToggleName(category, subName);
    name != [] && IdsWhere(ts, RelevanceMask(ts, category, name), false) != []
  }

  class TaskStore {
    /** The global `tasks` array. */
    var tasks: seq<Task>
    /** `customSubcategories` in local storage (an absent entry is empty). */
    var registry: Registry
    /** `subcategoryActiveSnapshots` in local storage. */
    var snapshots: Snapshots
    /** The list `saveTasks` last handed to IndexedDB and to the legacy copy. */
    var saved: seq<Task>

    /** The store before `loadTasks`. */
    constructor()
      ensures tasks == [] && registry == map[] && snapshots == map[] && saved == []
    {
      tasks := [];
      registry := map[];
      snapshots := map[];
      saved := [];
    }

    /** Ids are distinct and every task is consistent. */
    predicate Valid()
      reads this
    {
      UniqueIds(tasks) && AllConsistent(tasks)
    }

    /** `saveTasks` */
    method Save()
      modifies this
      ensures saved == tasks
      ensures tasks == old(tasks) && registry == old(registry) && snapshots == old(snapshots)
    {
      saved := tasks;
    }

    /** `getNextId`: the running maximum of the ids, plus one. */
    method GetNextId() returns (id: int)
      ensures id == NextId(tasks)
      ensures id >= 1 && forall i :: 0 <= i < |tasks| ==> tasks[i].id < id
    {
      var maxId := 0;
      var i := 0;
      while i < |tasks|
        invariant 0 <= i <= |tasks|
        invariant maxId == MaxId(tasks[..i])
      {
        assert tasks[..i + 1][..i] == tasks[..i];
        if tasks[i].id > maxId {
          maxId := tasks[i].id;
        }
        i := i + 1;
      }
      assert tasks[..i] == tasks;
      id := maxId + 1;
      NextIdAbove(tasks);
    }

    /** `tasks.findIndex(t => t.id === id)` */
    method FindTaskIndex(id: int) returns (k: int)
      ensures k == FindIndex(tasks, id)
      ensures k == -1 <==> !HasId(tasks, id)
    {
      k := 0;
      while k < |tasks| && tasks[k].id != id
        invariant 0 <= k <= |tasks|
        invariant forall j :: 0 <= j < k ==> tasks[j].id != id
      {
        k := k + 1;
      }
      if k == |tasks| {
        k := -1;
      }
    }

    // -------------------------------------------------------------------------
    // Adding tasks

    /** The loop of `addLinesAsTasks` (and of the paste dialog): each
        non-blank line, trimmed, becomes a new active task whose id is
        `getNextId()` of the list as it stands, and is pushed onto the list. */
    method AppendLines(lines: seq<string>, category: int, sub: Option<string>, now: int) returns (added: nat)
      modifies this
      ensures added == |NonBlankLines(lines)|
      ensures tasks == old(tasks) + NewTasks(NonBlankLines(lines), NextId(old(tasks)), category, sub, now)
      ensures registry == old(registry) && snapshots == old(snapshots) && saved == old(saved)
    {
      var ts := tasks;
      added := 0;
      var i := 0;
      ghost var done: seq<string> := [];
      while i < |lines|
        invariant 0 <= i <= |lines|
        invariant done == NonBlankLines(lines[..i]) && added == |done|
        invariant unchanged(this)
        invariant ts == tasks + NewTasks(done, NextId(tasks), category, sub, now)
      {
        var text := Trim(lines[i]);
        PrefixSnoc(lines, i);
        NonBlankLinesSnoc(lines[..i], lines[i]);
        if text != [] {
          AppendNewTask(tasks, done, text, category, sub, now);
          ts := ts + [NewTask(NextId(ts), text, category, sub, now)];
          added := added + 1;
          done := done + [text];
        }
        i := i + 1;
      }
      assert lines[..i] == lines;
      tasks := ts;
    }

    /** `addLinesAsTasks(lines, category, selectedSub)`: one new task per
        non-blank line, with the next id each time, then one save; nothing at
        all for an empty list. */
    method AddLinesAsTasks(lines: seq<string>, category: int, selected: Option<string>, now: int) returns (added: nat)
      modifies this
      ensures added == |NonBlankLines(lines)|
      ensures tasks == old(tasks) + NewTasks(NonBlankLines(lines), NextId(old(tasks)), category,
                                             SelectedSubcategory(category, selected), now)
      ensures saved == (if lines == [] then old(saved) else tasks)
      ensures registry == old(registry) && snapshots == old(snapshots)
      ensures old(Valid()) && ValidCategory(category) ==> Valid()
    {
      if lines == [] {
        return 0;
      }
      var sub := SelectedSubcategory(category, selected);
      NewTasksKeepInvariants(tasks, NonBlankLines(lines), category, sub, now);
      added := AppendLines(lines, category, sub, now);
      Save();
    }

    /** The add dialog: the typed lines (split, trimmed, blank ones dropped)
        go to `addLinesAsTasks`; a chosen subcategory button takes the
        dialog's own category; more than one line needs the confirmation. */
    method AddFromDialog(raw: string, chosenCategory: int, selectedSub: Option<string>, primaryCategory: Option<int>,
                         confirmed: bool, now: int)
      modifies this
      ensures var lines := TypedLines(raw);
        var category := if TargetSub(selectedSub).Some? && primaryCategory.Some? then primaryCategory.value else chosenCategory;
        if lines == [] || (|lines| > 1 && !confirmed) then
          tasks == old(tasks) && saved == old(saved)
        else
          tasks == old(tasks) + NewTasks(lines, NextId(old(tasks)), category,
                                         SelectedSubcategory(category, TargetSub(selectedSub)), now) &&
          saved == tasks
      ensures registry == old(registry) && snapshots == old(snapshots)
    {
      var lines := TypedLines(raw);
      if lines == [] {
        return;
      }
      var sub := TargetSub(selectedSub);
      var category := chosenCategory;
      if sub.Some? && primaryCategory.Some? {
        category := primaryCategory.value;
      }
      if |lines| > 1 && !confirmed {
        return;
      }
      NonBlankLinesOfClean(lines);
      var added := AddLinesAsTasks(lines, category, sub, now);
    }

    /** The paste dialog: every typed line becomes a new task of category 0
        without subcategory; nothing is added from the archive view, and more
        than one line needs the confirmation. */
    method PasteTasks(raw: string, showArchive: bool, confirmed: bool, now: int)
      modifies this
      ensures var lines := TypedLines(raw);
        if showArchive || lines == [] || (|lines| > 1 && !confirmed) then
          tasks == old(tasks) && saved == old(saved)
        else
          tasks == old(tasks) + NewTasks(lines, NextId(old(tasks)), 0, None, now) && saved == tasks
      ensures registry == old(registry) && snapshots == old(snapshots)
      ensures old(Valid()) ==> Valid()
    {
      var lines := TypedLines(raw);
      if showArchive || lines == [] || (|lines| > 1 && !confirmed) {
        return;
      }
      NonBlankLinesOfClean(lines);
      NewTasksKeepInvariants(tasks, lines, 0, None, now);
      var added := AppendLines(lines, 0, None, now);
      Save();
    }

    /** The "add past task" button of the daily view. */
    method AddPastTask(input: string, category: int, minutes: int, day: Option<Day>, now: int) returns (outcome: PastOutcome)
      modifies this
      ensures outcome == PastTask(old(tasks), input, category, minutes, day, now)
      ensures outcome.Added? ==> tasks == old(tasks) + [outcome.task] && saved == tasks
      ensures !outcome.Added? ==> tasks == old(tasks) && saved == old(saved)
      ensures registry == old(registry) && snapshots == old(snapshots)
      ensures old(Valid()) && ValidCategory(category) ==> Valid()
    {
      outcome := PastTask(tasks, input, category, minutes, day, now);
      if outcome.Added? {
        var id := GetNextId();
        var d := day.value;
        var t := Task(id, Str(Trim(input)), category, None, true, false, Some(now),
                      Some(d.startMs + 12 * HourMs), Some(minutes * MinuteMs), Some(d.isoDate));
        PastTaskKeepsInvariants(tasks, input, category, minutes, day, now);
        tasks := tasks + [t];
        Save();
      }
    }

    // -------------------------------------------------------------------------
    // Changes to one task

    /** `changeTaskCategory(taskId, newCategory, newSubcategory)` */
    method ChangeTaskCategory(id: int, newCategory: int, newSub: Option<string>, now: int)
      modifies this
      ensures tasks == Mutations.ChangeTaskCategory(old(tasks), id, newCategory, newSub, now)
      ensures saved == (if HasId(old(tasks), id) then tasks else old(saved))
      ensures registry == old(registry) && snapshots == old(snapshots)
      ensures old(Valid()) && ValidCategory(newCategory) &&
              (forall i :: 0 <= i < |old(tasks)| && old(tasks)[i].id == id ==> !old(tasks)[i].completed)
              ==> Valid()
    {
      var k := FindTaskIndex(id);
      if k == -1 {
        return;
      }
      if ValidCategory(newCategory) && forall i :: 0 <= i < |tasks| && tasks[i].id == id ==> !tasks[i].completed {
        ChangeTaskCategoryKeepsInvariants(tasks, id, newCategory, newSub, now);
      }
      tasks := tasks[k := ChangedTask(tasks[k], newCategory, newSub, now)];
      Save();
    }

    /** `toggleTaskActive(taskId)`; the page offers it only for tasks that are
        not completed, which is what keeps the store consistent. */
    method ToggleTaskActive(id: int, now: int)
      modifies this
      ensures tasks == Mutations.ToggleTaskActive(old(tasks), id, now)
      ensures saved == (if HasId(old(tasks), id) then tasks else old(saved))
      ensures registry == old(registry) && snapshots == old(snapshots)
      ensures old(Valid()) && (forall i :: 0 <= i < |old(tasks)| && old(tasks)[i].id == id ==> !old(tasks)[i].completed)
              ==> Valid()
    {
      var k := FindTaskIndex(id);
      if k == -1 {
        return;
      }
      if AllConsistent(tasks) {
        ToggleTaskActiveConsistency(tasks, id, now);
      }
      tasks := tasks[k := tasks[k].(active := !tasks[k].active, statusChangedAt := Some(now))];
      Save();
    }

    /** The complete button of a task. */
    method CompleteTask(id: int, now: int)
      modifies this
      ensures tasks == CompletionChange(old(tasks), id, Complete, now)
      ensures saved == (if HasId(old(tasks), id) then tasks else old(saved))
      ensures registry == old(registry) && snapshots == old(snapshots)
      ensures old(Valid()) ==> Valid()
    {
      var k := FindTaskIndex(id);
      CompletionChangeKeepsInvariants(tasks, id, Complete, now);
      if k != -1 {
        tasks := tasks[k := Completed(tasks[k], now)];
        Save();
      }
    }

    /** `completeCurrentTaskAndClose`: the timer's task, if any, is completed
        with completion time, duration and day. */
    method CompleteCurrentTask(current: Option<int>, timerStart: int, day: string, now: int)
      modifies this
      ensures current.None? ==> tasks == old(tasks) && saved == old(saved)
      ensures current.Some? ==> tasks == CompletionChange(old(tasks), current.value, CompleteWithTimer(timerStart, day), now)
      ensures current.Some? ==> saved == (if HasId(old(tasks), current.value) then tasks else old(saved))
      ensures registry == old(registry) && snapshots == old(snapshots)
      ensures old(Valid()) ==> Valid()
    {
      if current.None? {
        return;
      }
      var id := current.value;
      var k := FindTaskIndex(id);
      CompletionChangeKeepsInvariants(tasks, id, CompleteWithTimer(timerStart, day), now);
      if k != -1 {
        tasks := tasks[k := CompletedWithTimer(tasks[k], now, timerStart, day)];
        Save();
      }
    }

    /** The return button of a completed task. */
    method ReturnTask(id: int, now: int)
      modifies this
      ensures tasks == CompletionChange(old(tasks), id, Return, now)
      ensures saved == (if HasId(old(tasks), id) then tasks else old(saved))
      ensures registry == old(registry) && snapshots == old(snapshots)
      ensures old(Valid()) ==> Valid()
    {
      var k := FindTaskIndex(id);
      CompletionChangeKeepsInvariants(tasks, id, Return, now);
      if k != -1 {
        tasks := tasks[k := Returned(tasks[k], now)];
        Save();
      }
    }

    /** `undoCompleteTask(taskId)` */
    method UndoCompleteTask(id: int)
      modifies this
      ensures tasks == CompletionChange(old(tasks), id, Undo, 0)
      ensures saved == (if HasId(old(tasks), id) then tasks else old(saved))
      ensures registry == old(registry) && snapshots == old(snapshots)
      ensures old(Valid()) ==> Valid()
    {
      var k := FindTaskIndex(id);
      CompletionChangeKeepsInvariants(tasks, id, Undo, 0);
      if k != -1 {
        tasks := tasks[k := Undone(tasks[k])];
        Save();
      }
    }

    /** The confirmed delete of a task. */
    method DeleteTask(id: int)
      modifies this
      ensures tasks == Mutations.DeleteTask(old(tasks), id) && saved == tasks
      ensures registry == old(registry) && snapshots == old(snapshots)
      ensures old(Valid()) ==> Valid()
    {
      DeleteKeepsInvariants(tasks, id);
      tasks := Mutations.DeleteTask(tasks, id);
      Save();
    }

    /** The move-task dialog as the page runs it: the activation test reads
        the category after it was overwritten, so `active` and the stamp are
        kept. */
    method MoveTask(id: int, targetCategory: int, targetSub: Option<string>, now: int)
      modifies this
      ensures tasks == MoveTaskAsWritten(old(tasks), id, targetCategory, targetSub, now)
      ensures saved == (if HasId(old(tasks), id) then tasks else old(saved))
      ensures registry == old(registry) && snapshots == old(snapshots)
      ensures old(Valid()) && ValidCategory(targetCategory) ==> Valid()
    {
      var k := FindTaskIndex(id);
      if k == -1 {
        return;
      }
      if ValidCategory(targetCategory) {
        MoveTaskAsWrittenKeepsInvariants(tasks, id, targetCategory, targetSub, now);
      }
      tasks := tasks[k := MovedTaskAsWritten(tasks[k], targetCategory, targetSub, now)];
      Save();
    }

    // -------------------------------------------------------------------------
    // Changes to many tasks

    /** `toggleCategoryActive(category)` */
    method ToggleCategoryActive(category: int, now: int)
      modifies this
      ensures tasks == Mutations.ToggleCategoryActive(old(tasks), category, now) && saved == tasks
      ensures registry == old(registry) && snapshots == old(snapshots)
      ensures old(Valid()) && (HasActiveIn(old(tasks), category) ||
              forall i :: 0 <= i < |old(tasks)| && old(tasks)[i].category == category ==> !old(tasks)[i].completed)
              ==> Valid()
    {
      if AllConsistent(tasks) {
        ToggleCategoryActiveConsistency(tasks, category, now);
      }
      tasks := Mutations.ToggleCategoryActive(tasks, category, now);
      Save();
    }

    /** `toggleSubcategoryActiveByName(category, subName)`: tasks and
        snapshots change together; the tasks are saved only when some task is
        relevant. */
    method ToggleSubcategoryActive(category: int, subName: Option<string>, now: int)
      modifies this
      ensures var r := ToggleSubcategory(old(tasks), old(snapshots), category, subName, now);
        tasks == r.tasks && snapshots == r.snapshots
      ensures saved == (if SubToggleSaves(old(tasks), category, subName) then tasks else old(saved))
      ensures registry == old(registry)
      ensures old(Valid()) ==> Valid()
    {
      var name := ToggleName(category, subName);
      if name == [] {
        return;
      }
      var m := RelevanceMask(tasks, category, name);
      var r := ToggleMasked(tasks, m, snapshots, (category, name), now);
      ToggleMaskedFrame(tasks, m, snapshots, (category, name), now);
      SameButKeepsIds(tasks, r.tasks);
      ToggleSubcategoryKeepsConsistent(tasks, snapshots, category, subName, now);
      snapshots := r.snapshots;
      if IdsWhere(tasks, m, false) != [] {
        tasks := r.tasks;
        Save();
      }
    }

    /** The import of a parsed file: the elements are checked one by one and
        the first bad one stops the import; an accepted file replaces the
        whole list. */
    method ImportTasks(input: ImportInput) returns (outcome: ImportOutcome)
      modifies this
      ensures outcome == ImportOutcomeOf(input)
      ensures outcome.Imported? ==> tasks == ImportedTasks(input.items) && saved == tasks
      ensures !outcome.Imported? ==> tasks == old(tasks) && saved == old(saved)
      ensures registry == old(registry) && snapshots == old(snapshots)
    {
      match input
      case Unparseable =>
        outcome := ReadError;
      case NotAnArray =>
        outcome := NotArrayError;
      case Items(items) =>
        var i := 0;
        while i < |items|
          invariant 0 <= i <= |items|
          invariant forall j :: 0 <= j < i ==> AcceptedItem(items[j])
        {
          if !AcceptedItem(items[i]) {
            return FormatError;
          }
          i := i + 1;
        }
        tasks := ImportedTasks(items);
        Save();
        outcome := Imported(|items|);
    }

    // -------------------------------------------------------------------------
    // The registry and the subcategory menu

    /** The "+" editors of the task dropdown and of the add dialog. */
    method AddSubcategoryName(category: int, input: string)
      modifies this
      ensures registry == RegistryAdd(old(registry), category, input)
      ensures tasks == old(tasks) && saved == old(saved) && snapshots == old(snapshots)
    {
      registry := RegistryAdd(registry, category, input);
    }

    /** The rename action of the subcategory menu. */
    method RenameSubcategory(category: int, subName: string, input: string)
      modifies this
      ensures var r := Subcategories.RenameSubcategory(old(registry), old(tasks), category, subName, input);
        registry == r.registry && tasks == r.tasks
      ensures saved == (if IsBlank(input) then old(saved) else tasks)
      ensures snapshots == old(snapshots)
      ensures old(Valid()) ==> Valid()
    {
      if IsBlank(input) {
        return;
      }
      var r := Subcategories.RenameSubcategory(registry, tasks, category, subName, input);
      var renamed := Resubcategorized(tasks, category, subName, Some(Trim(input)));
      ResubcategorizedKeepsInvariants(tasks, category, subName, Some(Trim(input)));
      assert r.tasks == renamed;
      ghost var keeps := Valid() ==> UniqueIds(renamed) && AllConsistent(renamed);
      assert keeps;
      registry := r.registry;
      tasks := renamed;
      Save();
    }

    /** The confirmed delete action of the subcategory menu. */
    method DeleteSubcategory(category: int, subName: string)
      modifies this
      ensures var r := Subcategories.DeleteSubcategory(old(registry), old(tasks), category, subName);
        registry == r.registry && tasks == r.tasks && saved == tasks
      ensures snapshots == old(snapshots)
      ensures old(Valid()) ==> Valid()
    {
      var r := Subcategories.DeleteSubcategory(registry, tasks, category, subName);
      ResubcategorizedKeepsInvariants(tasks, category, subName, None);
      registry := r.registry;
      tasks := r.tasks;
      Save();
    }

    /** The move action of the subcategory menu. */
    method MoveSubcategory(category: int, subName: string, targetCategory: int, targetSub: Option<string>, now: int)
      modifies this
      ensures tasks == MoveSubcategoryTasks(old(tasks), category, subName, targetCategory, targetSub, now) && saved == tasks
      ensures registry == old(registry) && snapshots == old(snapshots)
      ensures old(Valid()) && ValidCategory(targetCategory) ==> Valid()
    {
      if ValidCategory(targetCategory) {
        MoveSubcategoryKeepsInvariants(tasks, category, subName, targetCategory, targetSub, now);
      }
      tasks := MoveSubcategoryTasks(tasks, category, subName, targetCategory, targetSub, now);
      Save();
    }

    // -------------------------------------------------------------------------
    // loadTasks

    /** `loadTasks`, given what IndexedDB returned (`None` when reading it
        failed) and the legacy copy: on failure nothing changes; otherwise
        the repaired list replaces the tasks, the registry is cleaned and the
        list is saved. */
    method Load(db: Option<seq<RawTask>>, blob: LegacyBlob) returns (ok: bool)
      modifies this
      ensures ok <==> SourceList(db, blob).Some?
      ensures ok ==> Some(tasks) == LoadedTasks(db, blob) && saved == tasks &&
                     registry == LoadedRegistry(old(registry))
      ensures !ok ==> tasks == old(tasks) && saved == old(saved) && registry == old(registry)
      ensures snapshots == old(snapshots)
    {
      var source := SourceList(db, blob);
      if source.None? {
        return false;
      }
      tasks := RepairAll(source.value);
      var cs := SanitizedRegistry(registry);
      if 1 in cs {
        var filtered := DedupCategoryOne(cs[1]);
        cs := cs[1 := filtered];
      }
      registry := cs;
      Save();
      ok := true;
    }
  }
}
