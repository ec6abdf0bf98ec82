/**
 * The single-task and whole-list changes of the store, as functions from the
 * old task list to the new one: category change, active toggles, completion
 * and its reversal, deletion, import, the backdated insert and the move-task
 * dialog. The class in store.dfy applies them to its `tasks` field.
 */
module Mutations {
  import opened Wrappers
  import opened Text
  import opened Categories
  import opened Tasks

  /** `ts` and `r` differ at most at position `k`. */
  predicate OnlyAt(ts: seq<Task>, r: seq<Task>, k: int) {
    |r| == |ts| && forall i :: 0 <= i < |ts| && i != k ==> r[i] == ts[i]
  }

  /** Replacing one task by one with the same id keeps the ids distinct, and
      keeps every task consistent when the new one is. */
  lemma ReplaceKeepsInvariants(ts: seq<Task>, k: int, t: Task)
    requires 0 <= k < |ts| && t.id == ts[k].id
    ensures UniqueIds(ts) ==> UniqueIds(ts[k := t])
    ensures AllConsistent(ts) && Consistent(t) ==> AllConsistent(ts[k := t])
    ensures AllConsistent(ts[k := t]) ==> Consistent(t)
  {
    assert ts[k := t][k] == t;
  }

  // ---------------------------------------------------------------------------
  // changeTaskCategory

  /** The task `changeTaskCategory` writes back: the new category; a given
      non-blank subcategory trimmed, else the old one kept only within the
      same category; an inactive task leaving category 0 is activated and
      only then stamped. */
  function ChangedTask(prev: Task, newCategory: int, newSub: Option<string>, now: int): (r: Task)
    ensures r.id == prev.id && r.text == prev.text && r.completed == prev.completed
    ensures r.category == newCategory
    ensures newSub.Some? && !IsBlank(newSub.value) ==> r.subcategory == Some(Trim(newSub.value))
    ensures (newSub.None? || IsBlank(newSub.value)) && prev.category != newCategory ==> r.subcategory.None?
    ensures (newSub.None? || IsBlank(newSub.value)) && prev.category == newCategory ==> r.subcategory == prev.subcategory
    ensures r.active <==> prev.active || (prev.category == 0 && newCategory != 0)
    ensures r.statusChangedAt != prev.statusChangedAt ==> !prev.active && r.active && r.statusChangedAt == Some(now)
    ensures !prev.active && r.active ==> r.statusChangedAt == Some(now)
    ensures r.completedAt == prev.completedAt && r.duration == prev.duration && r.completedDate == prev.completedDate
  {
    var sub :=
      if newSub.Some? && !IsBlank(newSub.value) then Some(Trim(newSub.value))
      else if prev.category != newCategory then None
      else prev.subcategory;
    var activate := prev.category == 0 && !prev.active && newCategory != 0;
    var active := if activate then true else prev.active;
    var stamp := if !prev.active && active then Some(now) else prev.statusChangedAt;
    prev.(category := newCategory, subcategory := sub, active := active, statusChangedAt := stamp)
  }

  /** `changeTaskCategory(taskId, newCategory, newSubcategory)` */
  function ChangeTaskCategory(ts: seq<Task>, id: int, newCategory: int, newSub: Option<string>, now: int): (r: seq<Task>)
    ensures !HasId(ts, id) ==> r == ts
    ensures HasId(ts, id) ==>
      OnlyAt(ts, r, FindIndex(ts, id)) &&
      r[FindIndex(ts, id)] == ChangedTask(ts[FindIndex(ts, id)], newCategory, newSub, now)
  {
    var k := FindIndex(ts, id);
    if k == -1 then ts else ts[k := ChangedTask(ts[k], newCategory, newSub, now)]
  }

  /** Moving a task that is not completed to one of the six categories keeps
      the store consistent. The dropdown refuses completed tasks; for them
      the auto-activation would break `completed ==> !active`. */
  lemma ChangeTaskCategoryKeepsInvariants(ts: seq<Task>, id: int, newCategory: int, newSub: Option<string>, now: int)
    requires ValidCategory(newCategory)
    requires forall i :: 0 <= i < |ts| && ts[i].id == id ==> !ts[i].completed
    ensures var r := ChangeTaskCategory(ts, id, newCategory, newSub, now);
      (UniqueIds(ts) ==> UniqueIds(r)) && (AllConsistent(ts) ==> AllConsistent(r))
  {
    var k := FindIndex(ts, id);
    if k != -1 {
      var t := ChangedTask(ts[k], newCategory, newSub, now);
      ReplaceKeepsInvariants(ts, k, t);
    }
  }

  /** A completed task of category 0 moved elsewhere becomes active while it
      stays completed. */
  lemma ChangeTaskCategoryOnCompleted()
    ensures var t := Task(1, Str("x"), 0, None, true, false, None, None, None, None);
      var r := ChangeTaskCategory([t], 1, 2, None, 5);
      r[0].completed && r[0].active && !Consistent(r[0])
  {
    var t := Task(1, Str("x"), 0, None, true, false, None, None, None, None);
    assert FindIndex([t], 1) == 0;
  }

  // ---------------------------------------------------------------------------
  // toggleTaskActive and toggleCategoryActive

  /** `toggleTaskActive(taskId)`: flips `active` and stamps the task. */
  function ToggleTaskActive(ts: seq<Task>, id: int, now: int): (r: seq<Task>)
    ensures !HasId(ts, id) ==> r == ts
    ensures HasId(ts, id) ==>
      OnlyAt(ts, r, FindIndex(ts, id)) &&
      r[FindIndex(ts, id)] == ts[FindIndex(ts, id)].(active := !ts[FindIndex(ts, id)].active, statusChangedAt := Some(now))
  {
    var k := FindIndex(ts, id);
    if k == -1 then ts else ts[k := ts[k].(active := !ts[k].active, statusChangedAt := Some(now))]
  }

  /** Toggling twice gives every task its old `active` back; only the stamp
      differs. */
  lemma ToggleTaskActiveTwice(ts: seq<Task>, id: int, now1: int, now2: int)
    ensures var r := ToggleTaskActive(ToggleTaskActive(ts, id, now1), id, now2);
      |r| == |ts| && forall i :: 0 <= i < |ts| ==> r[i].(statusChangedAt := ts[i].statusChangedAt) == ts[i]
  {
    var r1 := ToggleTaskActive(ts, id, now1);
    var k := FindIndex(ts, id);
    if k != -1 {
      assert r1[k].id == id;
      assert forall j :: 0 <= j < k ==> r1[j].id != id;
      assert FindIndex(r1, id) == k;
    } else {
      assert r1 == ts;
    }
  }

  /** In a consistent store the toggle keeps consistency exactly when the
      task is not completed; the button is hidden for completed tasks. */
  lemma ToggleTaskActiveConsistency(ts: seq<Task>, id: int, now: int)
    requires AllConsistent(ts) && HasId(ts, id)
    ensures UniqueIds(ts) ==> UniqueIds(ToggleTaskActive(ts, id, now))
    ensures AllConsistent(ToggleTaskActive(ts, id, now)) <==> !ts[FindIndex(ts, id)].completed
  {
    var k := FindIndex(ts, id);
    ReplaceKeepsInvariants(ts, k, ts[k].(active := !ts[k].active, statusChangedAt := Some(now)));
  }

  predicate HasActiveIn(ts: seq<Task>, category: int) {
    exists i :: 0 <= i < |ts| && ts[i].category == category && ts[i].active
  }

  /** `toggleCategoryActive(category)`: every task of the category gets
      `active = !hasActive` and a stamp, completed or not. */
  function ToggleCategoryActive(ts: seq<Task>, category: int, now: int): (r: seq<Task>)
    ensures |r| == |ts|
    ensures forall i :: 0 <= i < |ts| && ts[i].category != category ==> r[i] == ts[i]
    ensures forall i :: 0 <= i < |ts| && ts[i].category == category ==>
      r[i] == ts[i].(active := !HasActiveIn(ts, category), statusChangedAt := Some(now))
  {
    var on := !HasActiveIn(ts, category);
    seq(|ts|, i requires 0 <= i < |ts| =>
      if ts[i].category == category then ts[i].(active := on, statusChangedAt := Some(now)) else ts[i])
  }

  /** In a consistent store the category toggle keeps consistency exactly
      when it switches the category off, or the category holds no completed
      task. */
  lemma ToggleCategoryActiveConsistency(ts: seq<Task>, category: int, now: int)
    requires AllConsistent(ts)
    ensures UniqueIds(ts) ==> UniqueIds(ToggleCategoryActive(ts, category, now))
    ensures AllConsistent(ToggleCategoryActive(ts, category, now)) <==>
      HasActiveIn(ts, category) || forall i :: 0 <= i < |ts| && ts[i].category == category ==> !ts[i].completed
  {
    var r := ToggleCategoryActive(ts, category, now);
    if !HasActiveIn(ts, category) && exists i :: 0 <= i < |ts| && ts[i].category == category && ts[i].completed {
      var i :| 0 <= i < |ts| && ts[i].category == category && ts[i].completed;
      assert !Consistent(r[i]);
    }
  }

  // ---------------------------------------------------------------------------
  // Completion and its reversal

  /** The complete button: completed, inactive, stamped; no completion time,
      duration or date is recorded. */
  function Completed(t: Task, now: int): Task {
    t.(completed := true, active := false, statusChangedAt := Some(now))
  }

  /** The time a finished timer ran: `max(0, now - start)`, or 0 when no timer
      was started. */
  function TimerDuration(now: int, timerStart: int): (d: int)
    ensures d >= 0
    ensures timerStart > 0 && now >= timerStart ==> d == now - timerStart
    ensures timerStart <= 0 || now < timerStart ==> d == 0
  {
    if timerStart > 0 then (if now - timerStart > 0 then now - timerStart else 0) else 0
  }

  /** `completeCurrentTaskAndClose` on the task: completed, inactive, with
      completion time, duration and day; `statusChangedAt` is left alone. */
  function CompletedWithTimer(t: Task, now: int, timerStart: int, day: string): Task {
    t.(completed := true, active := false, completedAt := Some(now),
       duration := Some(TimerDuration(now, timerStart)), completedDate := Some(day))
  }

  /** The return button: back to active, stamped, completion data removed. */
  function Returned(t: Task, now: int): Task {
    t.(completed := false, active := true, statusChangedAt := Some(now),
       completedAt := None, duration := None, completedDate := None)
  }

  /** `undoCompleteTask`: as the return button, but without a stamp. */
  function Undone(t: Task): Task {
    t.(completed := false, active := true, completedAt := None, duration := None, completedDate := None)
  }

  /** Undo reverses completion through the timer exactly, for an active task
      without completion data; the return button does the same up to the
      stamp. */
  lemma UndoReversesCompletion(t: Task, now: int, timerStart: int, day: string, later: int)
    requires t.active && !t.completed && t.completedAt.None? && t.duration.None? && t.completedDate.None?
    ensures Undone(CompletedWithTimer(t, now, timerStart, day)) == t
    ensures Undone(Completed(t, now)) == t.(statusChangedAt := Some(now))
    ensures Returned(Completed(t, now), later) == t.(statusChangedAt := Some(later))
  {
  }

  /** Every completion and reversal keeps a task consistent. */
  lemma CompletionKeepsConsistent(t: Task, now: int, timerStart: int, day: string)
    requires ValidCategory(t.category)
    ensures Consistent(Completed(t, now)) && Consistent(CompletedWithTimer(t, now, timerStart, day))
    ensures Consistent(Returned(t, now)) && Consistent(Undone(t))
  {
  }

  datatype CompletionStep = Complete | CompleteWithTimer(timerStart: int, day: string) | Return | Undo

  function ApplyStep(t: Task, step: CompletionStep, now: int): Task {
    match step
    case Complete => Completed(t, now)
    case CompleteWithTimer(start, day) => CompletedWithTimer(t, now, start, day)
    case Return => Returned(t, now)
    case Undo => Undone(t)
  }

  /** One completion step on the task with the given id; nothing happens for
      an unknown id (or for `completeCurrentTaskAndClose` with no current
      task, which the caller expresses as an unknown id). */
  function CompletionChange(ts: seq<Task>, id: int, step: CompletionStep, now: int): (r: seq<Task>)
    ensures !HasId(ts, id) ==> r == ts
    ensures HasId(ts, id) ==>
      OnlyAt(ts, r, FindIndex(ts, id)) &&
      r[FindIndex(ts, id)].completed == !(step.Return? || step.Undo?) &&
      r[FindIndex(ts, id)].active == (step.Return? || step.Undo?)
  {
    var k := FindIndex(ts, id);
    if k == -1 then ts else ts[k := ApplyStep(ts[k], step, now)]
  }

  /** Completion steps keep the ids distinct and the store consistent. */
  lemma CompletionChangeKeepsInvariants(ts: seq<Task>, id: int, step: CompletionStep, now: int)
    ensures UniqueIds(ts) ==> UniqueIds(CompletionChange(ts, id, step, now))
    ensures AllConsistent(ts) ==> AllConsistent(CompletionChange(ts, id, step, now))
  {
    var k := FindIndex(ts, id);
    if k != -1 {
      var t := ApplyStep(ts[k], step, now);
      if AllConsistent(ts) {
        assert Consistent(ts[k]);
        CompletionKeepsConsistent(ts[k], now, if step.CompleteWithTimer? then step.timerStart else 0,
                                  if step.CompleteWithTimer? then step.day else []);
      }
      ReplaceKeepsInvariants(ts, k, t);
    }
  }

  // ---------------------------------------------------------------------------
  // deleteTask

  /** `tasks.filter(t => t.id !== taskId)` */
  function DeleteTask(ts: seq<Task>, id: int): (r: seq<Task>)
    ensures forall t :: t in r <==> t in ts && t.id != id
    ensures !HasId(ts, id) ==> r == ts
    ensures HasId(ts, id) ==> |r| < |ts|
  {
    if ts == [] then []
    else
      var rest := DeleteTask(ts[1..], id);
      assert forall t :: t in ts <==> t == ts[0] || t in ts[1..];
      assert HasId(ts, id) && ts[0].id != id ==> HasId(ts[1..], id) by {
        if HasId(ts, id) && ts[0].id != id {
          var i :| 0 <= i < |ts| && ts[i].id == id;
          assert ts[1..][i - 1].id == id;
        }
      }
      assert !HasId(ts, id) ==> !HasId(ts[1..], id) by {
        if HasId(ts[1..], id) {
          var i :| 0 <= i < |ts[1..]| && ts[1..][i].id == id;
          assert ts[i + 1].id == id;
        }
      }
      (if ts[0].id == id then [] else [ts[0]]) + rest
  }

  /** The filter keeps the order of the survivors: deleting from a
      concatenation deletes from each part. */
  lemma {:induction false} DeleteTaskConcat(a: seq<Task>, b: seq<Task>, id: int)
    ensures DeleteTask(a + b, id) == DeleteTask(a, id) + DeleteTask(b, id)
  {
    if a == [] {
      assert a + b == b;
    } else {
      assert (a + b)[0] == a[0];
      assert (a + b)[1..] == a[1..] + b;
      DeleteTaskConcat(a[1..], b, id);
    }
  }

  /** Deleting keeps the ids distinct and the store consistent. */
  lemma DeleteKeepsInvariants(ts: seq<Task>, id: int)
    ensures UniqueIds(ts) ==> UniqueIds(DeleteTask(ts, id))
    ensures AllConsistent(ts) ==> AllConsistent(DeleteTask(ts, id))
  {
    var r := DeleteTask(ts, id);
    if AllConsistent(ts) {
      forall i | 0 <= i < |r| ensures Consistent(r[i]) {
        assert r[i] in r;
        var j :| 0 <= j < |ts| && ts[j] == r[i];
      }
    }
    if UniqueIds(ts) {
      DeleteKeepsUniqueIds(ts, id);
    }
  }

  lemma {:induction false} DeleteKeepsUniqueIds(ts: seq<Task>, id: int)
    requires UniqueIds(ts)
    ensures UniqueIds(DeleteTask(ts, id))
  {
    if ts != [] {
      var r := DeleteTask(ts, id);
      var rest := DeleteTask(ts[1..], id);
      assert UniqueIds(ts[1..]) by {
        forall i, j | 0 <= i < j < |ts[1..]| ensures ts[1..][i].id != ts[1..][j].id {
          assert ts[1..][i] == ts[i + 1] && ts[1..][j] == ts[j + 1];
        }
      }
      DeleteKeepsUniqueIds(ts[1..], id);
      if ts[0].id != id {
        forall k | 0 <= k < |rest| ensures rest[k].id != ts[0].id {
          assert rest[k] in rest;
          var j :| 0 <= j < |ts[1..]| && ts[1..][j] == rest[k];
          assert ts[j + 1] == rest[k];
        }
        assert r == [ts[0]] + rest;
      }
    }
  }

  // ---------------------------------------------------------------------------
  // importTasks

  /** One element of an imported JSON array: the task as stored, and whether
      its `category` property was present. */
  datatype ImportItem = ImportItem(task: Task, hasCategory: bool)

  /** The file content after `JSON.parse`. */
  datatype ImportInput = Unparseable | NotAnArray | Items(items: seq<ImportItem>)

  datatype ImportOutcome = ReadError | NotArrayError | FormatError | Imported(count: nat)

  /** An element passes the check when its text is truthy and its category is
      defined. */
  predicate AcceptedItem(item: ImportItem) {
    Truthy(item.task.text) && item.hasCategory
  }

  /** What `importTasks` reports for a parsed file. */
  function ImportOutcomeOf(input: ImportInput): (r: ImportOutcome)
    ensures r.Imported? <==> input.Items? && forall i :: 0 <= i < |input.items| ==> AcceptedItem(input.items[i])
    ensures r.Imported? ==> r.count == |input.items|
    ensures r == FormatError <==> input.Items? && exists i :: 0 <= i < |input.items| && !AcceptedItem(input.items[i])
  {
    match input
    case Unparseable => ReadError
    case NotAnArray => NotArrayError
    case Items(items) =>
      if forall i :: 0 <= i < |items| ==> AcceptedItem(items[i]) then Imported(|items|) else FormatError
  }

  /** The tasks of an accepted file, which replace the whole store. */
  function ImportedTasks(items: seq<ImportItem>): (r: seq<Task>)
    ensures |r| == |items| && forall i :: 0 <= i < |items| ==> r[i] == items[i].task
  {
    seq(|items|, i requires 0 <= i < |items| => items[i].task)
  }

  // ---------------------------------------------------------------------------
  // The backdated insert of the daily-activity dialog

  /** The chosen day: its local-midnight time and its date string. */
  datatype Day = Day(startMs: int, isoDate: string)

  datatype PastOutcome = MissingText | MissingDuration | MissingDate | Added(task: Task)

  const HourMs: int := 3600000
  const MinuteMs: int := 60000

  /** The checks and the task of the "add past task" button, in the order
      the handler makes them. */
  function PastTask(ts: seq<Task>, input: string, category: int, minutes: int, day: Option<Day>, now: int): (r: PastOutcome)
    ensures r == MissingText <==> IsBlank(input)
    ensures r == MissingDuration <==> !IsBlank(input) && minutes <= 0
    ensures r == MissingDate <==> !IsBlank(input) && minutes > 0 && day.None?
    ensures r.Added? ==> var t := r.task;
      t.id == NextId(ts) && t.text == Str(Trim(input)) && t.category == category &&
      t.completed && !t.active && t.subcategory.None? &&
      t.completedAt == Some(day.value.startMs + 12 * HourMs) &&
      t.duration == Some(minutes * MinuteMs) && t.completedDate == Some(day.value.isoDate) &&
      t.statusChangedAt == Some(now)
  {
    if IsBlank(input) then MissingText
    else if minutes <= 0 then MissingDuration
    else if day.None? then MissingDate
    else Added(Task(NextId(ts), Str(Trim(input)), category, None, true, false, Some(now),
                    Some(day.value.startMs + 12 * HourMs), Some(minutes * MinuteMs), Some(day.value.isoDate)))
  }

  /** The inserted task has a fresh id, a positive duration and is consistent
      when its category is one of the six. */
  lemma PastTaskKeepsInvariants(ts: seq<Task>, input: string, category: int, minutes: int, day: Option<Day>, now: int)
    requires PastTask(ts, input, category, minutes, day, now).Added?
    ensures var r := ts + [PastTask(ts, input, category, minutes, day, now).task];
      (UniqueIds(ts) ==> UniqueIds(r)) &&
      (AllConsistent(ts) && ValidCategory(category) ==> AllConsistent(r)) &&
      r[|ts|].duration.value >= MinuteMs && r[|ts|].text != Str([])
  {
    var t := PastTask(ts, input, category, minutes, day, now).task;
    var r := ts + [t];
    NextIdAbove(ts);
    assert forall i :: 0 <= i < |ts| ==> r[i] == ts[i];
    assert Trim(input) != [];
  }

  // ---------------------------------------------------------------------------
  // The move-task dialog

  /** `selectedSubBtn.dataset.sub || null`: an empty selection is none. */
  function TargetSub(sub: Option<string>): Option<string> {
    if sub.Some? && sub.value != [] then sub else None
  }

  /** The move-task handler as written: the activation test reads the
      category of the already-updated task. */
  function MovedTaskAsWritten(prev: Task, targetCategory: int, targetSub: Option<string>, now: int): (r: Task)
    ensures r.id == prev.id && r.text == prev.text && r.completed == prev.completed
    ensures r.category == targetCategory && r.subcategory == TargetSub(targetSub)
    ensures r.completedAt == prev.completedAt && r.duration == prev.duration && r.completedDate == prev.completedDate
  {
    var updated := prev.(category := targetCategory, subcategory := TargetSub(targetSub));
    if updated.category == 0 && targetCategory != 0 && !updated.active then
      updated.(active := true, statusChangedAt := Some(now))
    else updated
  }

  /** The activation as written never happens: a move keeps `active` and the
      stamp, whatever the old and new categories. */
  lemma MoveAsWrittenNeverActivates(prev: Task, targetCategory: int, targetSub: Option<string>, now: int)
    ensures MovedTaskAsWritten(prev, targetCategory, targetSub, now).active == prev.active
    ensures MovedTaskAsWritten(prev, targetCategory, targetSub, now).statusChangedAt == prev.statusChangedAt
  {
  }

  /** An inactive task of category 0 moved to category 3 stays inactive as
      written, and is activated by the intended rule. */
  lemma MoveFromUndefinedCounterexample()
    ensures var t := Task(7, Str("x"), 0, None, false, false, Some(1), None, None, None);
      !MovedTaskAsWritten(t, 3, None, 9).active && MovedTask(t, 3, None, 9).active
  {
  }

  /** The move-task handler with the test on the previous category, as the
      comment beside it states: an inactive task leaving category 0 becomes
      active and is stamped. */
  function MovedTask(prev: Task, targetCategory: int, targetSub: Option<string>, now: int): (r: Task)
    ensures r.id == prev.id && r.text == prev.text && r.completed == prev.completed
    ensures r.category == targetCategory && r.subcategory == TargetSub(targetSub)
    ensures r.active <==> prev.active || (prev.category == 0 && targetCategory != 0)
    ensures r.statusChangedAt != prev.statusChangedAt ==> !prev.active && r.active && r.statusChangedAt == Some(now)
    ensures !prev.active && r.active ==> r.statusChangedAt == Some(now)
    ensures r.completedAt == prev.completedAt && r.duration == prev.duration && r.completedDate == prev.completedDate
  {
    var updated := prev.(category := targetCategory, subcategory := TargetSub(targetSub));
    if prev.category == 0 && targetCategory != 0 && !prev.active then
      updated.(active := true, statusChangedAt := Some(now))
    else updated
  }

  /** The corrected move activates and stamps exactly as `changeTaskCategory`
      does. */
  lemma MovedTaskAgreesWithChange(prev: Task, targetCategory: int, targetSub: Option<string>, now: int)
    ensures MovedTask(prev, targetCategory, targetSub, now).active == ChangedTask(prev, targetCategory, targetSub, now).active
    ensures MovedTask(prev, targetCategory, targetSub, now).statusChangedAt ==
            ChangedTask(prev, targetCategory, targetSub, now).statusChangedAt
  {
  }

  /** The move-task dialog on the store as written: the task with the id,
      if any, is replaced by `MovedTaskAsWritten` of it and nothing else
      changes. */
  function MoveTaskAsWritten(ts: seq<Task>, id: int, targetCategory: int, targetSub: Option<string>, now: int): (r: seq<Task>)
    ensures !HasId(ts, id) ==> r == ts
    ensures HasId(ts, id) ==>
      OnlyAt(ts, r, FindIndex(ts, id)) &&
      r[FindIndex(ts, id)] == MovedTaskAsWritten(ts[FindIndex(ts, id)], targetCategory, targetSub, now)
  {
    var k := FindIndex(ts, id);
    if k == -1 then ts else ts[k := MovedTaskAsWritten(ts[k], targetCategory, targetSub, now)]
  }

  /** As written, a move to one of the six categories keeps the store
      consistent whatever the task's state, since `active` never changes. */
  lemma MoveTaskAsWrittenKeepsInvariants(ts: seq<Task>, id: int, targetCategory: int, targetSub: Option<string>, now: int)
    requires ValidCategory(targetCategory)
    ensures var r := MoveTaskAsWritten(ts, id, targetCategory, targetSub, now);
      (UniqueIds(ts) ==> UniqueIds(r)) && (AllConsistent(ts) ==> AllConsistent(r))
  {
    var k := FindIndex(ts, id);
    if k != -1 {
      MoveAsWrittenNeverActivates(ts[k], targetCategory, targetSub, now);
      ReplaceKeepsInvariants(ts, k, MovedTaskAsWritten(ts[k], targetCategory, targetSub, now));
    }
  }

  /** The move-task dialog on the store with the corrected activation, the
      partner of `MoveTaskAsWritten`. */
  function MoveTask(ts: seq<Task>, id: int, targetCategory: int, targetSub: Option<string>, now: int): (r: seq<Task>)
    ensures !HasId(ts, id) ==> r == ts
    ensures HasId(ts, id) ==>
      OnlyAt(ts, r, FindIndex(ts, id)) &&
      r[FindIndex(ts, id)] == MovedTask(ts[FindIndex(ts, id)], targetCategory, targetSub, now)
  {
    var k := FindIndex(ts, id);
    if k == -1 then ts else ts[k := MovedTask(ts[k], targetCategory, targetSub, now)]
  }

  /** Moving a task that is not completed to one of the six categories keeps
      the store consistent. */
  lemma MoveTaskKeepsInvariants(ts: seq<Task>, id: int, targetCategory: int, targetSub: Option<string>, now: int)
    requires ValidCategory(targetCategory)
    requires forall i :: 0 <= i < |ts| && ts[i].id == id ==> !ts[i].completed
    ensures var r := MoveTask(ts, id, targetCategory, targetSub, now);
      (UniqueIds(ts) ==> UniqueIds(r)) && (AllConsistent(ts) ==> AllConsistent(r))
  {
    var k := FindIndex(ts, id);
    if k != -1 {
      ReplaceKeepsInvariants(ts, k, MovedTask(ts[k], targetCategory, targetSub, now));
    }
  }
}
