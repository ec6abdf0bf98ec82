/**
 * Subcategories: matching a task against a normalised subcategory name, the
 * on/off switch of a whole subcategory with its saved snapshot of active ids
 * (`toggleSubcategoryActiveByName`), and the custom-subcategory registry with
 * the rename, delete and move actions of the subcategory menu.
 */
module Subcategories {
  import opened Wrappers
  import opened Text
  import opened Categories
  import opened Tasks
  import opened Mutations

  /** `taskMatchesSubcategory(task, category, normalizedName)`: same category,
      and the task's subcategory normalises to the name (a missing or blank
      one counts as `""`). */
  predicate MatchesSubcategory(t: Task, category: int, name: string) {
    t.category == category && NormalizeSubcategoryName(category, t.subcategory).GetOr([]) == name
  }

  /** How matching treats the aliases and the task's subcategory. */
  lemma MatchesSubcategoryMeaning(t: Task, category: int, name: string)
    ensures MatchesSubcategory(t, category, name) ==> t.category == category
    ensures t.category == category && (t.subcategory.None? || IsBlank(t.subcategory.value)) ==>
      (MatchesSubcategory(t, category, name) <==> name == [])
    ensures t.category == category && category != 1 && t.subcategory.Some? ==>
      (MatchesSubcategory(t, category, name) <==> Trim(t.subcategory.value) == name)
    ensures t.category == 1 && category == 1 && t.subcategory.Some? && AliasTag(t.subcategory.value) in WorkAliases ==>
      (MatchesSubcategory(t, category, name) <==> name == WorkKey)
  {
    if t.category == category && t.subcategory.Some? && IsBlank(t.subcategory.value) {
      assert Trim(t.subcategory.value) == [];
    }
  }

  /** The tasks the switch acts on: matching and not completed. */
  predicate Relevant(t: Task, category: int, name: string) {
    MatchesSubcategory(t, category, name) && !t.completed
  }

  /** Which tasks are relevant, position by position. */
  function RelevanceMask(ts: seq<Task>, category: int, name: string): (m: seq<bool>)
    ensures |m| == |ts| && forall i :: 0 <= i < |ts| ==> m[i] == Relevant(ts[i], category, name)
  {
    seq(|ts|, i requires 0 <= i < |ts| => Relevant(ts[i], category, name))
  }

  /** Ids of the tasks selected by the mask (and active, if asked), in store
      order. */
  function IdsWhere(ts: seq<Task>, m: seq<bool>, onlyActive: bool): (r: seq<int>)
    requires |m| == |ts|
    ensures forall x :: x in r <==> exists i :: 0 <= i < |ts| && m[i] && (onlyActive ==> ts[i].active) && ts[i].id == x
  {
    if ts == [] then []
    else
      var rest := IdsWhere(ts[1..], m[1..], onlyActive);
      assert forall i :: 1 <= i < |ts| ==> ts[i] == ts[1..][i - 1] && m[i] == m[1..][i - 1];
      (if m[0] && (onlyActive ==> ts[0].active) then [ts[0].id] else []) + rest
  }

  predicate AnyActive(ts: seq<Task>, m: seq<bool>)
    requires |m| == |ts|
  {
    exists i :: 0 <= i < |ts| && m[i] && ts[i].active
  }

  /** `ids.filter(id => allowed.includes(id))` */
  function KeepIds(ids: seq<int>, allowed: seq<int>): (r: seq<int>)
    ensures forall x :: x in r <==> x in ids && x in allowed
  {
    if ids == [] then []
    else (if ids[0] in allowed then [ids[0]] else []) + KeepIds(ids[1..], allowed)
  }

  predicate Distinct<T(==)>(s: seq<T>) {
    forall i, j :: 0 <= i < j < |s| ==> s[i] != s[j]
  }

  /** `Array.from(new Set(s))`: first occurrences, in order. */
  function Dedup<T(==,!new)>(s: seq<T>): (r: seq<T>)
    ensures forall x :: x in r <==> x in s
    ensures Distinct(r)
  {
    if s == [] then []
    else
      var front := s[..|s| - 1];
      var last := s[|s| - 1];
      var r := Dedup(front);
      assert forall x :: x in s <==> x in front || x == last;
      if last in front then r else r + [last]
  }

  /** Every selected task that is active becomes inactive and is stamped. */
  function Deactivated(ts: seq<Task>, m: seq<bool>, now: int): (r: seq<Task>)
    requires |m| == |ts|
    ensures |r| == |ts|
    ensures forall i :: 0 <= i < |ts| ==>
      r[i] == (if m[i] && ts[i].active then ts[i].(active := false, statusChangedAt := Some(now)) else ts[i])
  {
    seq(|ts|, i requires 0 <= i < |ts| =>
      if m[i] && ts[i].active then ts[i].(active := false, statusChangedAt := Some(now)) else ts[i])
  }

  /** Every selected task gets `active` = its id is in `restore`; only the
      tasks whose flag changes are stamped. */
  function Restored(ts: seq<Task>, m: seq<bool>, restore: seq<int>, now: int): (r: seq<Task>)
    requires |m| == |ts|
    ensures |r| == |ts|
    ensures forall i :: 0 <= i < |ts| ==>
      r[i] == (if m[i] && ts[i].active != (ts[i].id in restore)
               then ts[i].(active := ts[i].id in restore, statusChangedAt := Some(now)) else ts[i])
  {
    seq(|ts|, i requires 0 <= i < |ts| =>
      if m[i] && ts[i].active != (ts[i].id in restore)
      then ts[i].(active := ts[i].id in restore, statusChangedAt := Some(now)) else ts[i])
  }

  /** The saved snapshots: for each (category, normalised name) the ids that
      were active when the subcategory was switched off. The source keys them
      by the string `cat:<category>|sub:<name>`, which determines the pair. */
  type Snapshots = map<(int, string), seq<int>>

  datatype SubToggle = SubToggle(tasks: seq<Task>, snapshots: Snapshots)

  /** The name `toggleSubcategoryActiveByName` works with: the normalised
      name, `""` when there is none. */
  function ToggleName(category: int, subName: Option<string>): string {
    NormalizeSubcategoryName(category, subName).GetOr([])
  }

  /** `toggleSubcategoryActiveByName(category, subName)` once the name is
      known: with no relevant task the snapshot is dropped; if a relevant task
      is active, the active ones are saved and switched off; otherwise the
      saved ids that are still relevant (or, if none, all relevant ids) are
      switched on and saved. */
  function ToggleMasked(ts: seq<Task>, m: seq<bool>, snaps: Snapshots, key: (int, string), now: int): SubToggle
    requires |m| == |ts|
  {
    var rel := IdsWhere(ts, m, false);
    if rel == [] then SubToggle(ts, snaps - {key})
    else if AnyActive(ts, m) then SubToggle(Deactivated(ts, m, now), snaps[key := IdsWhere(ts, m, true)])
    else
      var saved := if key in snaps then KeepIds(snaps[key], rel) else [];
      var restore := if saved != [] then saved else rel;
      SubToggle(Restored(ts, m, restore, now), snaps[key := Dedup(restore)])
  }

  /** `toggleSubcategoryActiveByName(category, subName)`: nothing happens
      without a name. */
  function ToggleSubcategory(ts: seq<Task>, snaps: Snapshots, category: int, subName: Option<string>, now: int): SubToggle {
    var name := ToggleName(category, subName);
    if name == [] then SubToggle(ts, snaps)
    else ToggleMasked(ts, RelevanceMask(ts, category, name), snaps, (category, name), now)
  }

  /** `b` differs from `a` at most in `active` and the stamp. */
  predicate SameBut(a: seq<Task>, b: seq<Task>) {
    |a| == |b| && forall i :: 0 <= i < |a| ==> b[i].(active := a[i].active, statusChangedAt := a[i].statusChangedAt) == a[i]
  }

  /** Lists that differ only in `active` and the stamp hold the same ids. */
  lemma SameButKeepsIds(a: seq<Task>, b: seq<Task>)
    requires SameBut(a, b)
    ensures forall i :: 0 <= i < |a| ==> b[i].id == a[i].id
    ensures UniqueIds(a) ==> UniqueIds(b)
  {
    forall i | 0 <= i < |a| ensures b[i].id == a[i].id {
      assert b[i].(active := a[i].active, statusChangedAt := a[i].statusChangedAt) == a[i];
    }
  }

  /** One switch changes only selected tasks, and only in `active` and the
      stamp. */
  lemma ToggleMaskedFrame(ts: seq<Task>, m: seq<bool>, snaps: Snapshots, key: (int, string), now: int)
    requires |m| == |ts|
    ensures var r := ToggleMasked(ts, m, snaps, key, now);
      SameBut(ts, r.tasks) && forall i :: 0 <= i < |ts| && !m[i] ==> r.tasks[i] == ts[i]
  {
    var rel := IdsWhere(ts, m, false);
    if rel != [] && !AnyActive(ts, m) {
      var saved := if key in snaps then KeepIds(snaps[key], rel) else [];
      var restore := if saved != [] then saved else rel;
      assert ToggleMasked(ts, m, snaps, key, now).tasks == Restored(ts, m, restore, now);
    }
  }

  /** With nothing selected a switch only drops the snapshot. */
  lemma ToggleMaskedNoneSelected(ts: seq<Task>, m: seq<bool>, snaps: Snapshots, key: (int, string), now: int)
    requires |m| == |ts| && forall i :: 0 <= i < |ts| ==> !m[i]
    ensures ToggleMasked(ts, m, snaps, key, now) == SubToggle(ts, snaps - {key})
  {
    assert forall x :: x !in IdsWhere(ts, m, false);
  }

  /** When a selected task is active, the switch turns every selected task
      off and saves exactly the ids that were active. */
  lemma ToggleMaskedOff(ts: seq<Task>, m: seq<bool>, snaps: Snapshots, key: (int, string), now: int)
    requires |m| == |ts| && AnyActive(ts, m)
    ensures var r := ToggleMasked(ts, m, snaps, key, now);
      (forall i :: 0 <= i < |ts| && m[i] ==> !r.tasks[i].active) &&
      key in r.snapshots &&
      (forall x :: x in r.snapshots[key] <==> exists i :: 0 <= i < |ts| && m[i] && ts[i].active && ts[i].id == x)
  {
    var w :| 0 <= w < |ts| && m[w] && ts[w].active;
    assert ts[w].id in IdsWhere(ts, m, false);
    assert ToggleMasked(ts, m, snaps, key, now) == SubToggle(Deactivated(ts, m, now), snaps[key := IdsWhere(ts, m, true)]);
  }

  /** When tasks are selected but none is active, the switch turns on exactly
      the selected tasks whose id it saves, and it saves only selected ids,
      at least one: the saved ids still selected, or all selected ids when
      none of the saved ones is. */
  lemma ToggleMaskedOn(ts: seq<Task>, m: seq<bool>, snaps: Snapshots, key: (int, string), now: int)
    requires |m| == |ts| && !AnyActive(ts, m) && exists i :: 0 <= i < |ts| && m[i]
    ensures var r := ToggleMasked(ts, m, snaps, key, now);
      key in r.snapshots && r.snapshots[key] != [] &&
      (forall i :: 0 <= i < |ts| && m[i] ==> (r.tasks[i].active <==> ts[i].id in r.snapshots[key])) &&
      (forall x :: x in r.snapshots[key] ==> exists i :: 0 <= i < |ts| && m[i] && ts[i].id == x)
    ensures var r := ToggleMasked(ts, m, snaps, key, now);
      var kept := if key in snaps then KeepIds(snaps[key], IdsWhere(ts, m, false)) else [];
      forall x :: x in r.snapshots[key] <==> x in (if kept != [] then kept else IdsWhere(ts, m, false))
  {
    var rel := IdsWhere(ts, m, false);
    var w :| 0 <= w < |ts| && m[w];
    assert ts[w].id in rel;
    var saved := if key in snaps then KeepIds(snaps[key], rel) else [];
    var restore := if saved != [] then saved else rel;
    var d := Dedup(restore);
    var r := ToggleMasked(ts, m, snaps, key, now);
    assert r.tasks == Restored(ts, m, restore, now) && r.snapshots == snaps[key := d];
    assert restore[0] in d;
    forall i | 0 <= i < |ts| && m[i] ensures r.tasks[i].active <==> ts[i].id in d {
      assert !ts[i].active;
      assert r.tasks[i].active == (ts[i].id in restore);
    }
    forall x | x in d ensures exists i :: 0 <= i < |ts| && m[i] && ts[i].id == x {
      assert x in rel;
    }
  }

  /** A switch only touches relevant tasks, which are not completed, so it
      keeps the store consistent. */
  lemma ToggleSubcategoryKeepsConsistent(ts: seq<Task>, snaps: Snapshots, category: int, subName: Option<string>, now: int)
    ensures AllConsistent(ts) ==> AllConsistent(ToggleSubcategory(ts, snaps, category, subName, now).tasks)
  {
    var name := ToggleName(category, subName);
    if name != [] && AllConsistent(ts) {
      var m := RelevanceMask(ts, category, name);
      var r := ToggleMasked(ts, m, snaps, (category, name), now);
      ToggleMaskedFrame(ts, m, snaps, (category, name), now);
      forall i | 0 <= i < |ts| ensures Consistent(r.tasks[i]) {
        assert r.tasks[i].(active := ts[i].active, statusChangedAt := ts[i].statusChangedAt) == ts[i];
        assert Consistent(ts[i]);
        if m[i] {
          assert !ts[i].completed;
        }
      }
    }
  }

  /** Relevance does not look at `active` or the stamp. */
  lemma MaskIgnoresActive(a: seq<Task>, b: seq<Task>, category: int, name: string)
    requires SameBut(a, b)
    ensures RelevanceMask(a, category, name) == RelevanceMask(b, category, name)
  {
    forall i | 0 <= i < |a| ensures Relevant(a[i], category, name) == Relevant(b[i], category, name) {
      assert b[i].category == a[i].category && b[i].subcategory == a[i].subcategory && b[i].completed == a[i].completed;
    }
  }

  /** Switching off and then on again restores the active flags: the
      snapshot holds exactly the ids that were active. */
  lemma RestoreAfterDeactivate(ts: seq<Task>, m: seq<bool>, now1: int, now2: int)
    requires |m| == |ts| && UniqueIds(ts) && AnyActive(ts, m)
    ensures var d := Deactivated(ts, m, now1);
      var saved := KeepIds(IdsWhere(ts, m, true), IdsWhere(d, m, false));
      var r := Restored(d, m, saved, now2);
      saved != [] && |r| == |ts| &&
      forall i :: 0 <= i < |ts| ==> r[i].(statusChangedAt := ts[i].statusChangedAt) == ts[i]
  {
    var d := Deactivated(ts, m, now1);
    var act := IdsWhere(ts, m, true);
    var rel := IdsWhere(d, m, false);
    var saved := KeepIds(act, rel);
    var r := Restored(d, m, saved, now2);
    var w :| 0 <= w < |ts| && m[w] && ts[w].active;
    assert ts[w].id in act && d[w].id in rel;
    assert ts[w].id in saved;
    forall i | 0 <= i < |ts| ensures r[i].(statusChangedAt := ts[i].statusChangedAt) == ts[i] {
      var t := ts[i];
      if m[i] {
        assert d[i].id == t.id && t.id in rel;
        if t.active {
          assert t.id in act;
          assert t.id in saved;
        } else {
          assert forall j :: 0 <= j < |ts| && ts[j].id == t.id ==> j == i;
          assert t.id !in act;
          assert t.id !in saved;
        }
      }
    }
  }

  /** Switching on and then off again restores the active flags: nothing
      selected was active before, and something selected is after. */
  lemma DeactivateAfterRestore(ts: seq<Task>, m: seq<bool>, restore: seq<int>, now1: int, now2: int)
    requires |m| == |ts| && !AnyActive(ts, m)
    requires restore != [] && forall x :: x in restore ==> x in IdsWhere(ts, m, false)
    ensures var r1 := Restored(ts, m, restore, now1);
      var r := Deactivated(r1, m, now2);
      AnyActive(r1, m) && |r| == |ts| &&
      forall i :: 0 <= i < |ts| ==> r[i].(statusChangedAt := ts[i].statusChangedAt) == ts[i]
  {
    var r1 := Restored(ts, m, restore, now1);
    assert restore[0] in restore;
    var w :| 0 <= w < |ts| && m[w] && ts[w].id == restore[0];
    assert r1[w].active;
  }

  /** Two switches over the same selection give every task its old `active`
      flag back (ids being distinct); only stamps differ. */
  lemma ToggleMaskedTwice(ts: seq<Task>, m: seq<bool>, snaps: Snapshots, key: (int, string), now1: int, now2: int)
    requires |m| == |ts| && UniqueIds(ts)
    ensures var r1 := ToggleMasked(ts, m, snaps, key, now1);
      var r2 := ToggleMasked(r1.tasks, m, r1.snapshots, key, now2);
      |r2.tasks| == |ts| &&
      forall i :: 0 <= i < |ts| ==> r2.tasks[i].(statusChangedAt := ts[i].statusChangedAt) == ts[i]
  {
    if forall i :: 0 <= i < |ts| ==> !m[i] {
      ToggleMaskedNoneSelected(ts, m, snaps, key, now1);
      ToggleMaskedNoneSelected(ts, m, snaps - {key}, key, now2);
    } else if AnyActive(ts, m) {
      OffThenOn(ts, m, snaps, key, now1, now2);
    } else {
      OnThenOff(ts, m, snaps, key, now1, now2);
    }
  }

  lemma OffThenOn(ts: seq<Task>, m: seq<bool>, snaps: Snapshots, key: (int, string), now1: int, now2: int)
    requires |m| == |ts| && UniqueIds(ts) && AnyActive(ts, m)
    ensures var r1 := ToggleMasked(ts, m, snaps, key, now1);
      var r2 := ToggleMasked(r1.tasks, m, r1.snapshots, key, now2);
      |r2.tasks| == |ts| &&
      forall i :: 0 <= i < |ts| ==> r2.tasks[i].(statusChangedAt := ts[i].statusChangedAt) == ts[i]
  {
    var d := Deactivated(ts, m, now1);
    var act := IdsWhere(ts, m, true);
    var w :| 0 <= w < |ts| && m[w] && ts[w].active;
    assert ts[w].id in IdsWhere(ts, m, false);
    assert ToggleMasked(ts, m, snaps, key, now1) == SubToggle(d, snaps[key := act]);
    var rel := IdsWhere(d, m, false);
    assert d[w].id in rel;
    assert !AnyActive(d, m);
    var saved := KeepIds(act, rel);
    RestoreAfterDeactivate(ts, m, now1, now2);
    assert ToggleMasked(d, m, snaps[key := act], key, now2).tasks == Restored(d, m, saved, now2);
  }

  lemma OnThenOff(ts: seq<Task>, m: seq<bool>, snaps: Snapshots, key: (int, string), now1: int, now2: int)
    requires |m| == |ts| && !AnyActive(ts, m) && exists i :: 0 <= i < |ts| && m[i]
    ensures var r1 := ToggleMasked(ts, m, snaps, key, now1);
      var r2 := ToggleMasked(r1.tasks, m, r1.snapshots, key, now2);
      |r2.tasks| == |ts| &&
      forall i :: 0 <= i < |ts| ==> r2.tasks[i].(statusChangedAt := ts[i].statusChangedAt) == ts[i]
  {
    var rel := IdsWhere(ts, m, false);
    var w :| 0 <= w < |ts| && m[w];
    assert ts[w].id in rel;
    var saved := if key in snaps then KeepIds(snaps[key], rel) else [];
    var restore := if saved != [] then saved else rel;
    var r1 := Restored(ts, m, restore, now1);
    assert ToggleMasked(ts, m, snaps, key, now1) == SubToggle(r1, snaps[key := Dedup(restore)]);
    DeactivateAfterRestore(ts, m, restore, now1, now2);
    var v :| 0 <= v < |ts| && m[v] && r1[v].active;
    assert r1[v].id in IdsWhere(r1, m, false);
    assert ToggleMasked(r1, m, snaps[key := Dedup(restore)], key, now2).tasks == Deactivated(r1, m, now2);
  }

  /** Switching a subcategory twice gives every task its old `active` flag
      back (ids being distinct); only stamps differ. */
  lemma ToggleSubcategoryTwice(ts: seq<Task>, snaps: Snapshots, category: int, subName: Option<string>, now1: int, now2: int)
    requires UniqueIds(ts)
    ensures var r1 := ToggleSubcategory(ts, snaps, category, subName, now1);
      var r2 := ToggleSubcategory(r1.tasks, r1.snapshots, category, subName, now2);
      |r2.tasks| == |ts| &&
      forall i :: 0 <= i < |ts| ==> r2.tasks[i].(statusChangedAt := ts[i].statusChangedAt) == ts[i]
  {
    var name := ToggleName(category, subName);
    if name != [] {
      var key := (category, name);
      var m := RelevanceMask(ts, category, name);
      var r1 := ToggleMasked(ts, m, snaps, key, now1);
      ToggleMaskedFrame(ts, m, snaps, key, now1);
      MaskIgnoresActive(ts, r1.tasks, category, name);
      ToggleMaskedTwice(ts, m, snaps, key, now1, now2);
    }
  }

  // ---------------------------------------------------------------------------
  // The custom-subcategory registry

  /** The stored `customSubcategories`: names per category, as the user typed
      them (trimmed). */
  type Registry = map<int, seq<string>>

  /** `Array.isArray(customSubs[cat]) ? customSubs[cat] : []` */
  function Names(reg: Registry, category: int): seq<string> {
    if category in reg then reg[category] else []
  }

  /** The "+" editors of the task dropdown and the add dialog: a non-blank
      name is trimmed and appended unless already present. */
  function RegistryAdd(reg: Registry, category: int, input: string): (r: Registry)
    ensures IsBlank(input) ==> r == reg
    ensures !IsBlank(input) ==> r.Keys == reg.Keys + {category} && Trim(input) in r[category]
    ensures forall c :: c in reg && c != category ==> c in r && r[c] == reg[c]
    ensures forall n :: n in Names(reg, category) ==> n in Names(r, category)
    ensures forall n :: n in Names(r, category) ==> n in Names(reg, category) || n == Trim(input)
  {
    var name := Trim(input);
    if name == [] then reg
    else
      var arr := Names(reg, category);
      reg[category := if name in arr then arr else arr + [name]]
  }

  /** Adding the same name again changes nothing. */
  lemma RegistryAddIdempotent(reg: Registry, category: int, input: string)
    ensures RegistryAdd(RegistryAdd(reg, category, input), category, input) == RegistryAdd(reg, category, input)
  {
    var r := RegistryAdd(reg, category, input);
    if Trim(input) != [] {
      var name := Trim(input);
      var arr := Names(reg, category);
      var arr2 := if name in arr then arr else arr + [name];
      assert r == reg[category := arr2];
      assert category in r && r[category] == arr2;
      assert name in arr2;
      assert RegistryAdd(r, category, input) == r[category := arr2];
      assert r[category := arr2] == r;
    }
  }

  /** The names of a category stay distinct. */
  lemma RegistryAddKeepsDistinct(reg: Registry, category: int, input: string)
    requires Distinct(Names(reg, category))
    ensures Distinct(Names(RegistryAdd(reg, category, input), category))
  {
    var name := Trim(input);
    var arr := Names(reg, category);
    if name == [] {
      assert RegistryAdd(reg, category, input) == reg;
    } else if name in arr {
      assert RegistryAdd(reg, category, input) == reg[category := arr];
    } else {
      var arr2 := arr + [name];
      assert RegistryAdd(reg, category, input) == reg[category := arr2];
      forall i, j | 0 <= i < j < |arr2| ensures arr2[i] != arr2[j] {
        if j == |arr| { assert arr[i] in arr; }
      }
    }
  }

  /** `arr.indexOf(x)` */
  function IndexOf(arr: seq<string>, x: string): (k: int)
    ensures k == -1 <==> x !in arr
    ensures k != -1 ==> 0 <= k < |arr| && arr[k] == x && forall j :: 0 <= j < k ==> arr[j] != x
  {
    if arr == [] then -1
    else if arr[0] == x then 0
    else
      var k := IndexOf(arr[1..], x);
      assert forall j :: 1 <= j < |arr| ==> arr[j] == arr[1..][j - 1];
      if k == -1 then -1 else k + 1
  }

  /** Every task of the category whose subcategory is exactly `from` gets
      `to` instead (rename and delete of the subcategory menu). */
  function Resubcategorized(ts: seq<Task>, category: int, from: string, to: Option<string>): (r: seq<Task>)
    ensures |r| == |ts|
    ensures forall i :: 0 <= i < |ts| ==>
      r[i] == (if ts[i].category == category && ts[i].subcategory == Some(from)
               then ts[i].(subcategory := to) else ts[i])
  {
    seq(|ts|, i requires 0 <= i < |ts| =>
      if ts[i].category == category && ts[i].subcategory == Some(from) then ts[i].(subcategory := to) else ts[i])
  }

  /** Only the subcategory changes, so ids and consistency are kept. */
  lemma ResubcategorizedKeepsInvariants(ts: seq<Task>, category: int, from: string, to: Option<string>)
    ensures UniqueIds(ts) ==> UniqueIds(Resubcategorized(ts, category, from, to))
    ensures AllConsistent(ts) ==> AllConsistent(Resubcategorized(ts, category, from, to))
    ensures to != Some(from) ==> forall i :: 0 <= i < |ts| ==>
      var t := Resubcategorized(ts, category, from, to)[i];
      !(t.category == category && t.subcategory == Some(from))
  {
  }

  datatype RegistryAndTasks = RegistryAndTasks(registry: Registry, tasks: seq<Task>)

  /** The rename action: the new name replaces the first occurrence of the
      old one (or is appended), the list is de-duplicated, and the tasks
      carrying the old name exactly get the new one. A blank new name does
      nothing. */
  function RenameSubcategory(reg: Registry, ts: seq<Task>, category: int, subName: string, input: string): (r: RegistryAndTasks)
    ensures IsBlank(input) ==> r == RegistryAndTasks(reg, ts)
    ensures !IsBlank(input) ==>
      category in r.registry && Trim(input) in r.registry[category] &&
      Distinct(r.registry[category]) && r.tasks == Resubcategorized(ts, category, subName, Some(Trim(input)))
    ensures forall c :: c in reg && c != category ==> c in r.registry && r.registry[c] == reg[c]
    ensures !IsBlank(input) ==> forall x :: x in Names(reg, category) && x != subName ==> x in r.registry[category]
  {
    var newName := Trim(input);
    if newName == [] then RegistryAndTasks(reg, ts)
    else
      var arr := Names(reg, category);
      var k := IndexOf(arr, subName);
      var arr2 := if k != -1 then arr[k := newName] else if newName in arr then arr else arr + [newName];
      assert newName in arr2 by {
        if k != -1 { assert arr2[k] == newName; }
      }
      assert forall x :: x in arr && x != subName ==> x in arr2 by {
        forall x | x in arr && x != subName ensures x in arr2 {
          var j :| 0 <= j < |arr| && arr[j] == x;
          if k != -1 { assert arr2[j] == x; } else if newName !in arr { assert arr2[j] == x; }
        }
      }
      RegistryAndTasks(reg[category := Dedup(arr2)], Resubcategorized(ts, category, subName, Some(newName)))
  }

  /** After a rename of a name listed once, the old name is gone from the
      registry, and no task of the category carries it. */
  lemma RenameRemovesOldName(reg: Registry, ts: seq<Task>, category: int, subName: string, input: string)
    requires !IsBlank(input) && Trim(input) != subName
    requires Distinct(Names(reg, category))
    ensures var r := RenameSubcategory(reg, ts, category, subName, input);
      subName !in r.registry[category] &&
      forall i :: 0 <= i < |r.tasks| ==> !(r.tasks[i].category == category && r.tasks[i].subcategory == Some(subName))
  {
    var newName := Trim(input);
    var arr := Names(reg, category);
    var k := IndexOf(arr, subName);
    if k != -1 {
      var arr2 := arr[k := newName];
      forall j | 0 <= j < |arr2| ensures arr2[j] != subName {
        if j != k { assert arr[j] != arr[k]; }
      }
    }
    ResubcategorizedKeepsInvariants(ts, category, subName, Some(newName));
  }

  /** The delete action: the name leaves the category's list and the tasks
      carrying it lose their subcategory. */
  function DeleteSubcategory(reg: Registry, ts: seq<Task>, category: int, subName: string): (r: RegistryAndTasks)
    ensures category in r.registry && subName !in r.registry[category]
    ensures forall n :: n in r.registry[category] <==> n in Names(reg, category) && n != subName
    ensures forall c :: c in reg && c != category ==> c in r.registry && r.registry[c] == reg[c]
    ensures r.tasks == Resubcategorized(ts, category, subName, None)
  {
    RegistryAndTasks(reg[category := RemoveName(Names(reg, category), subName)],
                     Resubcategorized(ts, category, subName, None))
  }

  /** `arr.filter(n => n !== x)` */
  function RemoveName(arr: seq<string>, x: string): (r: seq<string>)
    ensures forall n :: n in r <==> n in arr && n != x
  {
    if arr == [] then [] else (if arr[0] == x then [] else [arr[0]]) + RemoveName(arr[1..], x)
  }

  /** The move action: every task of the category carrying the name exactly
      goes to the target category and subcategory, and is stamped. */
  function MoveSubcategoryTasks(ts: seq<Task>, category: int, subName: string, targetCategory: int,
                                targetSub: Option<string>, now: int): (r: seq<Task>)
    ensures |r| == |ts|
    ensures forall i :: 0 <= i < |ts| ==>
      r[i] == (if ts[i].category == category && ts[i].subcategory == Some(subName)
               then ts[i].(category := targetCategory, subcategory := TargetSub(targetSub), statusChangedAt := Some(now))
               else ts[i])
  {
    seq(|ts|, i requires 0 <= i < |ts| =>
      if ts[i].category == category && ts[i].subcategory == Some(subName)
      then ts[i].(category := targetCategory, subcategory := TargetSub(targetSub), statusChangedAt := Some(now))
      else ts[i])
  }

  /** Moving to one of the six categories keeps ids and consistency, and
      empties the source subcategory unless it is the target. */
  lemma MoveSubcategoryKeepsInvariants(ts: seq<Task>, category: int, subName: string, targetCategory: int,
                                       targetSub: Option<string>, now: int)
    requires ValidCategory(targetCategory)
    ensures var r := MoveSubcategoryTasks(ts, category, subName, targetCategory, targetSub, now);
      (UniqueIds(ts) ==> UniqueIds(r)) && (AllConsistent(ts) ==> AllConsistent(r)) &&
      ((targetCategory, TargetSub(targetSub)) != (category, Some(subName)) ==>
        forall i :: 0 <= i < |r| ==> !(r[i].category == category && r[i].subcategory == Some(subName)))
  {
  }
}
