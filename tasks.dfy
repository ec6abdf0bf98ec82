/**
 * The task record, the store-wide invariants, id allocation (`getNextId`),
 * the tasks built from typed or pasted lines, the display order of a
 * category's list and the active-task filters behind the section counters
 * and the random pick.
 */
module Tasks {
  import opened Wrappers
  import opened Text
  import opened Categories

  /** One task as the store keeps it after loading. The optional fields are
      the JavaScript properties that may be absent. */
  datatype Task = Task(
    id: int,
    text: TextValue,
    category: int,
    subcategory: Option<string>,
    completed: bool,
    active: bool,
    statusChangedAt: Option<int>,
    completedAt: Option<int>,
    duration: Option<int>,
    completedDate: Option<string>)

  /** A completed task is never active, and the category is one of the six. */
  predicate Consistent(t: Task) {
    ValidCategory(t.category) && (t.completed ==> !t.active)
  }

  predicate AllConsistent(ts: seq<Task>) {
    forall i :: 0 <= i < |ts| ==> Consistent(ts[i])
  }

  predicate UniqueIds(ts: seq<Task>) {
    forall i, j :: 0 <= i < j < |ts| ==> ts[i].id != ts[j].id
  }

  predicate HasId(ts: seq<Task>, id: int) {
    exists i :: 0 <= i < |ts| && ts[i].id == id
  }

  /** `tasks.findIndex(t => t.id === id)`: the first position holding the id,
      or -1. */
  function FindIndex(ts: seq<Task>, id: int): (r: int)
    ensures r == -1 <==> !HasId(ts, id)
    ensures r != -1 ==> 0 <= r < |ts| && ts[r].id == id
    ensures r != -1 ==> forall j :: 0 <= j < r ==> ts[j].id != id
  {
    if ts == [] then -1
    else if ts[0].id == id then 0
    else
      var k := FindIndex(ts[1..], id);
      if k == -1 then
        assert forall i :: 1 <= i < |ts| ==> ts[i] == ts[1..][i - 1];
        -1
      else k + 1
  }

  // ---------------------------------------------------------------------------
  // getNextId

  /** The `maxId` accumulator of `getNextId` after visiting `ts` in order:
      it starts at 0 and takes each larger id. */
  function MaxId(ts: seq<Task>): (m: int)
    ensures m >= 0
  {
    if ts == [] then 0
    else
      var m := MaxId(ts[..|ts| - 1]);
      if ts[|ts| - 1].id > m then ts[|ts| - 1].id else m
  }

  /** The accumulator ends at the largest id, or at 0 when no id is
      positive. */
  lemma {:induction false} MaxIdIsMax(ts: seq<Task>)
    ensures forall i :: 0 <= i < |ts| ==> ts[i].id <= MaxId(ts)
    ensures MaxId(ts) == 0 || exists i :: 0 <= i < |ts| && ts[i].id == MaxId(ts)
  {
    if ts != [] {
      var prefix := ts[..|ts| - 1];
      MaxIdIsMax(prefix);
      assert forall i :: 0 <= i < |prefix| ==> prefix[i] == ts[i];
    }
  }

  /** `getNextId()`: one more than the largest id, and 1 for an empty store. */
  function NextId(ts: seq<Task>): (r: int)
    ensures r >= 1
  {
    MaxId(ts) + 1
  }

  /** The next id is above every id in the store. */
  lemma NextIdAbove(ts: seq<Task>)
    ensures forall i :: 0 <= i < |ts| ==> ts[i].id < NextId(ts)
  {
    MaxIdIsMax(ts);
  }

  /** Appending a task with the next id moves the next id on by one. */
  lemma NextIdAfterAppend(ts: seq<Task>, t: Task)
    requires t.id == NextId(ts)
    ensures NextId(ts + [t]) == NextId(ts) + 1
  {
    assert (ts + [t])[..|ts|] == ts;
  }

  // ---------------------------------------------------------------------------
  // Tasks made from lines of text

  /** The trimmed, non-blank lines, in order (`trim` then skip the empty
      ones). */
  function NonBlankLines(lines: seq<string>): (r: seq<string>)
    ensures |r| <= |lines|
    ensures forall k :: 0 <= k < |r| ==> r[k] != [] && IsTrimmed(r[k])
  {
    if lines == [] then []
    else
      var last := lines[|lines| - 1];
      NonBlankLines(lines[..|lines| - 1]) + (if Trim(last) == [] then [] else [Trim(last)])
  }

  /** Lines that are already trimmed and non-blank pass through unchanged. */
  lemma {:induction false} NonBlankLinesOfClean(lines: seq<string>)
    requires forall k :: 0 <= k < |lines| ==> lines[k] != [] && IsTrimmed(lines[k])
    ensures NonBlankLines(lines) == lines
  {
    if lines != [] {
      var last := lines[|lines| - 1];
      NonBlankLinesOfClean(lines[..|lines| - 1]);
      TrimTrimmed(last);
      assert lines == lines[..|lines| - 1] + [last];
    }
  }

  /** A prefix one longer is the shorter prefix and one more element. */
  lemma PrefixSnoc<T>(s: seq<T>, i: int)
    requires 0 <= i < |s|
    ensures s[..i + 1] == s[..i] + [s[i]]
  {
  }

  /** One more line adds its trimmed text when that is not empty. */
  lemma NonBlankLinesSnoc(lines: seq<string>, x: string)
    ensures NonBlankLines(lines + [x]) == NonBlankLines(lines) + (if Trim(x) == [] then [] else [Trim(x)])
  {
    assert (lines + [x])[..|lines|] == lines;
  }

  /** The lines of a paste box or of the add dialog:
      `raw.split('\n').map(l => l.trim()).filter(Boolean)`. */
  function TypedLines(raw: string): seq<string> {
    NonBlankLines(SplitLines(raw))
  }

  /** A new task as `addLinesAsTasks` and the paste dialog build it. */
  function NewTask(id: int, text: string, category: int, sub: Option<string>, now: int): Task {
    Task(id, Str(text), category, sub, false, true, Some(now), None, None, None)
  }

  /** The tasks appended for `texts`: consecutive ids from `firstId`. */
  function NewTasks(texts: seq<string>, firstId: int, category: int, sub: Option<string>, now: int): (r: seq<Task>)
    ensures |r| == |texts|
    ensures forall k :: 0 <= k < |r| ==>
      r[k].id == firstId + k && r[k].text == Str(texts[k]) && r[k].category == category &&
      r[k].subcategory == sub && r[k].active && !r[k].completed && r[k].statusChangedAt == Some(now)
  {
    seq(|texts|, k requires 0 <= k < |texts| => NewTask(firstId + k, texts[k], category, sub, now))
  }

  /** One more text appends one more task, with the next id in the run. */
  lemma NewTasksSnoc(texts: seq<string>, x: string, firstId: int, category: int, sub: Option<string>, now: int)
    ensures NewTasks(texts + [x], firstId, category, sub, now) ==
            NewTasks(texts, firstId, category, sub, now) + [NewTask(firstId + |texts|, x, category, sub, now)]
  {
    var a := NewTasks(texts + [x], firstId, category, sub, now);
    var b := NewTasks(texts, firstId, category, sub, now) + [NewTask(firstId + |texts|, x, category, sub, now)];
    forall k | 0 <= k < |a| ensures a[k] == b[k] {
      if k < |texts| {
        assert (texts + [x])[k] == texts[k];
      }
    }
  }

  /** Appending one new task with the next id to a list that already ends
      in a run of new tasks extends the run by that text. */
  lemma AppendNewTask(ts: seq<Task>, texts: seq<string>, x: string, category: int, sub: Option<string>, now: int)
    ensures var before := ts + NewTasks(texts, NextId(ts), category, sub, now);
      before + [NewTask(NextId(before), x, category, sub, now)] ==
      ts + NewTasks(texts + [x], NextId(ts), category, sub, now)
  {
    NextIdAfterNewTasks(ts, texts, category, sub, now);
    NewTasksSnoc(texts, x, NextId(ts), category, sub, now);
  }

  /** The subcategory `addLinesAsTasks` gives its new tasks: a selected
      non-blank name, normalised for the category. */
  function SelectedSubcategory(category: int, selected: Option<string>): (r: Option<string>)
    ensures r.Some? <==> selected.Some? && !IsBlank(selected.value)
    ensures r.Some? ==> r == NormalizeSubcategoryName(category, selected) && r.value != []
  {
    match selected
    case None => None
    case Some(s) => if IsBlank(s) then None else NormalizeSubcategoryName(category, selected)
  }

  /** Appending new tasks keeps every id distinct, and every task consistent
      when the category is one of the six; every new id is above every old
      one. */
  lemma NewTasksKeepInvariants(ts: seq<Task>, texts: seq<string>, category: int, sub: Option<string>, now: int)
    ensures var r := ts + NewTasks(texts, NextId(ts), category, sub, now);
      (UniqueIds(ts) ==> UniqueIds(r)) &&
      (AllConsistent(ts) && ValidCategory(category) ==> AllConsistent(r)) &&
      (forall i, k :: 0 <= i < |ts| && |ts| <= k < |r| ==> r[i].id < r[k].id)
  {
    var n := NewTasks(texts, NextId(ts), category, sub, now);
    var r := ts + n;
    NextIdAbove(ts);
    assert forall k :: |ts| <= k < |r| ==> r[k] == n[k - |ts|];
    assert forall i :: 0 <= i < |ts| ==> r[i] == ts[i];
  }

  /** After appending the new tasks the next id has moved past all of them. */
  lemma {:induction false} NextIdAfterNewTasks(ts: seq<Task>, texts: seq<string>, category: int, sub: Option<string>, now: int)
    ensures NextId(ts + NewTasks(texts, NextId(ts), category, sub, now)) == NextId(ts) + |texts|
    decreases |texts|
  {
    if texts != [] {
      var m := |texts| - 1;
      var front := texts[..m];
      NextIdAfterNewTasks(ts, front, category, sub, now);
      var n := NewTasks(texts, NextId(ts), category, sub, now);
      var nf := NewTasks(front, NextId(ts), category, sub, now);
      assert n == nf + [n[m]];
      assert ts + n == (ts + nf) + [n[m]];
      assert n[m].id == NextId(ts + nf);
      NextIdAfterAppend(ts + nf, n[m]);
    } else {
      assert ts + NewTasks(texts, NextId(ts), category, sub, now) == ts;
    }
  }

  // ---------------------------------------------------------------------------
  // Display order of a category's list

  /** `statusChangedAt || 0` */
  function Stamp(t: Task): int {
    t.statusChangedAt.GetOr(0)
  }

  /** The comparator handed to `list.sort`: active tasks first; active tasks
      by oldest status change and then by id; inactive tasks by newest status
      change, with ties left at 0. */
  function CompareForDisplay(a: Task, b: Task): (r: int)
    ensures r < 0 <==> KeyLess(DisplayKey(a), DisplayKey(b))
    ensures r == 0 <==> DisplayKey(a) == DisplayKey(b)
  {
    if a.active != b.active then (if a.active then -1 else 1)
    else if !a.active && !b.active then Stamp(b) - Stamp(a)
    else if Stamp(a) != Stamp(b) then Stamp(a) - Stamp(b)
    else a.id - b.id
  }

  /** The place of a task in the display order, as a triple compared
      lexicographically. The id is part of the key only for active tasks. */
  function DisplayKey(t: Task): (int, int, int) {
    if t.active then (0, Stamp(t), t.id) else (1, -Stamp(t), 0)
  }

  predicate KeyLess(x: (int, int, int), y: (int, int, int)) {
    x.0 < y.0 || (x.0 == y.0 && (x.1 < y.1 || (x.1 == y.1 && x.2 < y.2)))
  }

  /** The comparator is antisymmetric and transitive, so the sort is well
      defined; two inactive tasks with the same stamp are tied. */
  lemma CompareIsOrder(a: Task, b: Task, c: Task)
    ensures CompareForDisplay(a, b) < 0 <==> CompareForDisplay(b, a) > 0
    ensures CompareForDisplay(a, b) <= 0 && CompareForDisplay(b, c) <= 0 ==> CompareForDisplay(a, c) <= 0
    ensures !a.active && !b.active && Stamp(a) == Stamp(b) ==> CompareForDisplay(a, b) == 0
  {
  }

  // ---------------------------------------------------------------------------
  // countActiveTasks and getRandomTask

  predicate Pickable(t: Task, categories: seq<int>) {
    t.category in categories && t.active && !t.completed
  }

  /** The tasks of the given categories that are active and not completed,
      in store order. */
  function ActiveIn(ts: seq<Task>, categories: seq<int>): (r: seq<Task>)
    ensures |r| <= |ts|
    ensures forall t :: t in r <==> t in ts && Pickable(t, categories)
  {
    if ts == [] then []
    else
      var rest := ActiveIn(ts[1..], categories);
      assert forall t :: t in ts <==> t == ts[0] || t in ts[1..];
      (if Pickable(ts[0], categories) then [ts[0]] else []) + rest
  }

  /** `countActiveTasks` */
  function CountActive(ts: seq<Task>, categories: seq<int>): (n: nat)
    ensures n <= |ts|
    ensures n == 0 <==> forall i :: 0 <= i < |ts| ==> !Pickable(ts[i], categories)
  {
    var r := ActiveIn(ts, categories);
    if |r| == 0 then
      assert forall i :: 0 <= i < |ts| ==> ts[i] in ts;
      0
    else
      assert r[0] in r;
      |r|
  }

  /** Appending a task to the store appends it to the pickable ones exactly
      when it is pickable. */
  lemma {:induction false} ActiveInSnoc(ts: seq<Task>, t: Task, categories: seq<int>)
    ensures ActiveIn(ts + [t], categories) ==
            ActiveIn(ts, categories) + (if Pickable(t, categories) then [t] else [])
  {
    if ts == [] {
      assert ts + [t] == [t];
      assert [t][1..] == [];
    } else {
      assert (ts + [t])[0] == ts[0];
      assert (ts + [t])[1..] == ts[1..] + [t];
      ActiveInSnoc(ts[1..], t, categories);
    }
  }

  /** The count is a tally: zero for no tasks, one more for each pickable
      task appended. */
  lemma CountActiveTally(ts: seq<Task>, t: Task, categories: seq<int>)
    ensures CountActive([], categories) == 0
    ensures CountActive(ts + [t], categories) == CountActive(ts, categories) + (if Pickable(t, categories) then 1 else 0)
  {
    ActiveInSnoc(ts, t, categories);
  }

  /** `getRandomTask` with `Math.random()` given as `u` in [0, 1): the task
      at `floor(u * n)` among the `n` pickable ones, or none. */
  function RandomTask(ts: seq<Task>, categories: seq<int>, u: real): (r: Option<Task>)
    requires 0.0 <= u < 1.0
    ensures r.None? <==> CountActive(ts, categories) == 0
    ensures r.Some? ==> r.value in ts && Pickable(r.value, categories)
  {
    var pool := ActiveIn(ts, categories);
    if |pool| == 0 then None
    else
      var n := |pool| as real;
      var x := u * n;
      assert 0.0 <= x by {
        assert 0.0 <= u && 0.0 < n;
      }
      assert x < n by {
        assert (1.0 - u) * n > 0.0;
      }
      var k := x.Floor;
      assert k as real <= x < k as real + 1.0;
      assert 0 <= k < |pool|;
      assert pool[k] in pool;
      Some(pool[k])
  }
}
