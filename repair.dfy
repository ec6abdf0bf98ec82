/**
 * What `loadTasks` makes of the records it reads back: the choice between the
 * IndexedDB list and the legacy local-storage copy, the repair of every
 * record (text, category, `active`, category-1 subcategory names) and the
 * clean-up of the stored custom-subcategory registry.
 */
module Repair {
  import opened Wrappers
  import opened Text
  import opened Categories
  import opened Tasks
  import opened Subcategories

  /** A task record as storage gives it back. `category` is what `parseInt`
      makes of the stored field (`None` for NaN); `active` is `None` when the
      stored field is not a boolean. */
  datatype RawTask = RawTask(
    id: int,
    text: TextValue,
    category: Option<int>,
    subcategory: Option<string>,
    completed: bool,
    active: Option<bool>,
    statusChangedAt: Option<int>,
    completedAt: Option<int>,
    duration: Option<int>,
    completedDate: Option<string>)

  /** A task as `saveTasks` writes it: both stored copies keep every field. */
  function Stored(t: Task): RawTask {
    RawTask(t.id, t.text, Some(t.category), t.subcategory, t.completed, Some(t.active),
            t.statusChangedAt, t.completedAt, t.duration, t.completedDate)
  }

  function StoredAll(ts: seq<Task>): (r: seq<RawTask>)
    ensures |r| == |ts| && forall k :: 0 <= k < |ts| ==> r[k] == Stored(ts[k])
  {
    seq(|ts|, k requires 0 <= k < |ts| => Stored(ts[k]))
  }

  /** A number in 0..5 is kept; NaN and every other number become 0. */
  function RepairCategory(c: Option<int>): (r: int)
    ensures ValidCategory(r)
    ensures c.Some? && ValidCategory(c.value) ==> r == c.value
    ensures r != 0 ==> c == Some(r)
  {
    if c.Some? && ValidCategory(c.value) then c.value else 0
  }

  /** The category-1 pass of `loadTasks`: a non-blank subcategory of a
      category-1 task is replaced by its normalised name, and would be dropped
      if that were empty; every other subcategory is left alone. */
  function LoadedSubcategory(category: int, sub: Option<string>): (r: Option<string>)
    ensures category != 1 || sub.None? || IsBlank(sub.value) ==> r == sub
    ensures category == 1 && sub.Some? && !IsBlank(sub.value) ==> r == NormalizeSubcategoryName(1, sub)
  {
    if category == 1 && sub.Some? && !IsBlank(sub.value) then
      var norm := NormalizeSubcategoryName(1, sub);
      if norm.Some? && norm.value != [] then norm else None
    else sub
  }

  /** The branch that drops the field is never taken: a subcategory is kept
      exactly when there is one. */
  lemma LoadedSubcategoryNeverDrops(category: int, sub: Option<string>)
    ensures LoadedSubcategory(category, sub).Some? <==> sub.Some?
  {
  }

  /** A loaded category-1 name is loaded again as it is. */
  lemma LoadedSubcategoryIdempotent(category: int, sub: Option<string>)
    ensures LoadedSubcategory(category, LoadedSubcategory(category, sub)) == LoadedSubcategory(category, sub)
  {
    if category == 1 && sub.Some? && !IsBlank(sub.value) {
      var n := NormalizeSubcategoryName(1, sub);
      var v := n.value;
      assert v != [];
      assert LoadedSubcategory(1, sub) == Some(v);
      NormalizeIdempotent(1, sub);
      assert NormalizeSubcategoryName(1, Some(v)) == Some(v);
      assert !IsBlank(v) by {
        assert !IsWhitespace(v[0]);
      }
    }
  }

  /** One record after the three passes of `loadTasks`: sanitised text,
      a category in 0..5, `active` defaulting to true, and the category-1
      subcategory normalised. */
  function RepairTask(r: RawTask): (t: Task)
    ensures ValidCategory(t.category)
    ensures t.text == SanitizeStoredValue(r.text)
    ensures t.active == r.active.GetOr(true)
    ensures t.subcategory.Some? <==> r.subcategory.Some?
    ensures t.category == RepairCategory(r.category)
    ensures t.subcategory == LoadedSubcategory(RepairCategory(r.category), r.subcategory)
    ensures t.id == r.id && t.completed == r.completed && t.statusChangedAt == r.statusChangedAt
    ensures t.completedAt == r.completedAt && t.duration == r.duration && t.completedDate == r.completedDate
  {
    var category := RepairCategory(r.category);
    LoadedSubcategoryNeverDrops(category, r.subcategory);
    Task(r.id, SanitizeStoredValue(r.text), category, LoadedSubcategory(category, r.subcategory),
         r.completed, r.active.GetOr(true), r.statusChangedAt, r.completedAt, r.duration, r.completedDate)
  }

  /** A repaired record is consistent exactly when it is not a completed task
      that is (or defaults to) active: the repair does not clear `active` on
      completed tasks. */
  lemma RepairConsistentIff(r: RawTask)
    ensures Consistent(RepairTask(r)) <==> !(r.completed && r.active.GetOr(true))
  {
  }

  /** A task that loading leaves as it is. */
  predicate Settled(t: Task) {
    && ValidCategory(t.category)
    && (t.text.Str? ==> CleanStoredText(t.text.s))
    && LoadedSubcategory(t.category, t.subcategory) == t.subcategory
  }

  /** Saving a settled task and loading it back gives the same task. */
  lemma SettledReloads(t: Task)
    requires Settled(t)
    ensures RepairTask(Stored(t)) == t
  {
    if t.text.Str? {
      SanitizeCleanIsIdentity(t.text.s);
    }
  }

  /** A loaded task is settled unless sanitising left a soft-hyphen entity
      spelling in its text, so a second load changes nothing. */
  lemma RepairSettles(r: RawTask)
    requires r.text.Str? ==> NoSoftHyphenEntity(SanitizeStoredText(r.text.s))
    ensures Settled(RepairTask(r))
    ensures RepairTask(Stored(RepairTask(r))) == RepairTask(r)
  {
    var t := RepairTask(r);
    LoadedSubcategoryIdempotent(t.category, r.subcategory);
    SettledReloads(t);
  }

  function RepairAll(rs: seq<RawTask>): (ts: seq<Task>)
    ensures |ts| == |rs| && forall k :: 0 <= k < |rs| ==> ts[k] == RepairTask(rs[k])
  {
    seq(|rs|, k requires 0 <= k < |rs| => RepairTask(rs[k]))
  }

  // ---------------------------------------------------------------------------
  // Where the list comes from

  /** The legacy copy under the local-storage key `tasks`: absent (or the
      empty string), not JSON, JSON that is not an array, or an array. */
  datatype LegacyBlob = Missing | Unparseable | NotArray | Items(items: seq<RawTask>)

  /** The list `loadTasks` starts from: the IndexedDB list when it could be
      read and is not empty, else the legacy copy, else the empty list. A
      legacy copy that is not JSON, or not an array, makes `loadTasks` fail
      (`None`). `db` is `None` when reading IndexedDB failed. */
  function SourceList(db: Option<seq<RawTask>>, blob: LegacyBlob): (r: Option<seq<RawTask>>)
    ensures db.Some? && db.value != [] ==> r == db
    ensures db.None? || db.value == [] ==>
      (r.None? <==> blob.Unparseable? || blob.NotArray?) &&
      (blob.Items? ==> r == Some(blob.items)) && (blob.Missing? ==> r == Some([]))
  {
    if db.Some? && db.value != [] then db
    else
      match blob
      case Missing => Some([])
      case Unparseable => None
      case NotArray => None
      case Items(items) => Some(items)
  }

  /** The tasks `loadTasks` ends with, or `None` when it fails. */
  function LoadedTasks(db: Option<seq<RawTask>>, blob: LegacyBlob): (r: Option<seq<Task>>)
    ensures r.Some? ==> forall k :: 0 <= k < |r.value| ==> ValidCategory(r.value[k].category)
    ensures r.Some? <==> SourceList(db, blob).Some?
    ensures r.Some? ==> r.value == RepairAll(SourceList(db, blob).value)
  {
    match SourceList(db, blob)
    case None => None
    case Some(rs) => Some(RepairAll(rs))
  }

  /** `saveTasks` writes the same list to IndexedDB and to the legacy copy;
      loading what it wrote gives back the settled tasks unchanged. */
  lemma SaveThenLoad(ts: seq<Task>)
    requires forall k :: 0 <= k < |ts| ==> Settled(ts[k])
    ensures LoadedTasks(Some(StoredAll(ts)), Items(StoredAll(ts))) == Some(ts)
  {
    var rs := RepairAll(StoredAll(ts));
    forall k | 0 <= k < |ts| ensures rs[k] == ts[k] {
      SettledReloads(ts[k]);
    }
    assert rs == ts;
  }

  // ---------------------------------------------------------------------------
  // The custom-subcategory registry

  /** The names that survive the category-1 clean-up, scanning left to
      right: a name is kept when its tag is non-empty and not among `seen`,
      the tags kept so far. `loadTasks` tags a name by `AliasTag` (trimmed,
      lower-cased). */
  function FirstByTag(names: seq<string>, tag: string -> string, seen: set<string>): (r: seq<string>)
    ensures forall n :: n in r ==> n in names && tag(n) != [] && tag(n) !in seen
    decreases |names|
  {
    if names == [] then []
    else
      var t := tag(names[0]);
      assert forall n :: n in names[1..] ==> n in names;
      if t == [] || t in seen then FirstByTag(names[1..], tag, seen)
      else [names[0]] + FirstByTag(names[1..], tag, seen + {t})
  }

  predicate DistinctTags(r: seq<string>, tag: string -> string) {
    forall i, j :: 0 <= i < j < |r| ==> tag(r[i]) != tag(r[j])
  }

  /** The kept names have distinct tags. */
  lemma {:induction false} FirstByTagDistinct(names: seq<string>, tag: string -> string, seen: set<string>)
    ensures DistinctTags(FirstByTag(names, tag, seen), tag)
    decreases |names|
  {
    if names != [] {
      var t := tag(names[0]);
      if t == [] || t in seen {
        FirstByTagDistinct(names[1..], tag, seen);
        assert FirstByTag(names, tag, seen) == FirstByTag(names[1..], tag, seen);
      } else {
        FirstByTagDistinct(names[1..], tag, seen + {t});
        var rest := FirstByTag(names[1..], tag, seen + {t});
        assert FirstByTag(names, tag, seen) == [names[0]] + rest;
        ConsDistinctTags(names[0], rest, tag);
      }
    }
  }

  lemma ConsDistinctTags(x: string, rest: seq<string>, tag: string -> string)
    requires DistinctTags(rest, tag)
    requires forall n :: n in rest ==> tag(n) != tag(x)
    ensures DistinctTags([x] + rest, tag)
  {
    var r := [x] + rest;
    forall i, j | 0 <= i < j < |r| ensures tag(r[i]) != tag(r[j]) {
      assert r[j] == rest[j - 1];
      if i > 0 {
        assert r[i] == rest[i - 1];
      }
    }
  }

  /** Every name with a non-empty tag not seen before has its tag among the
      kept names. */
  lemma {:induction false} FirstByTagCovers(names: seq<string>, tag: string -> string, seen: set<string>, n: string)
    requires n in names && tag(n) != [] && tag(n) !in seen
    ensures exists k :: 0 <= k < |FirstByTag(names, tag, seen)| && tag(FirstByTag(names, tag, seen)[k]) == tag(n)
    decreases |names|
  {
    var t := tag(names[0]);
    var r := FirstByTag(names, tag, seen);
    if t == [] || t in seen {
      assert n != names[0] && n in names[1..];
      FirstByTagCovers(names[1..], tag, seen, n);
      assert r == FirstByTag(names[1..], tag, seen);
      var k :| 0 <= k < |r| && tag(r[k]) == tag(n);
    } else if tag(n) == t {
      assert r == [names[0]] + FirstByTag(names[1..], tag, seen + {t});
      assert 0 < |r| && tag(r[0]) == tag(n);
    } else {
      assert n in names[1..];
      FirstByTagCovers(names[1..], tag, seen + {t}, n);
      var rest := FirstByTag(names[1..], tag, seen + {t});
      var k :| 0 <= k < |rest| && tag(rest[k]) == tag(n);
      assert r[k + 1] == rest[k];
    }
  }

  /** The category-1 clean-up as `loadTasks` runs it: one pass over the
      names with a set of the tags already kept. */
  method DedupCategoryOne(names: seq<string>) returns (filtered: seq<string>)
    ensures filtered == FirstByTag(names, AliasTag, {})
  {
    filtered := [];
    var seen: set<string> := {};
    var i := 0;
    while i < |names|
      invariant 0 <= i <= |names|
      invariant filtered + FirstByTag(names[i..], AliasTag, seen) == FirstByTag(names, AliasTag, {})
    {
      var tag := AliasTag(names[i]);
      assert names[i..][1..] == names[i + 1..];
      if tag != [] && tag !in seen {
        seen := seen + {tag};
        filtered := filtered + [names[i]];
      }
      i := i + 1;
    }
  }

  /** Every stored name goes through the text sanitiser. */
  function SanitizedRegistry(reg: Registry): (r: Registry)
    ensures r.Keys == reg.Keys
    ensures forall c :: c in reg ==> |r[c]| == |reg[c]|
  {
    map c | c in reg :: seq(|reg[c]|, k requires 0 <= k < |reg[c]| => SanitizeStoredText(reg[c][k]))
  }

  /** The registry `loadTasks` writes back: names sanitised, and category 1
      reduced to the first name of each non-empty tag. */
  function LoadedRegistry(reg: Registry): (r: Registry)
    ensures r.Keys == reg.Keys
    ensures forall c :: c in reg && c != 1 ==> r[c] == SanitizedRegistry(reg)[c]
    ensures 1 in reg ==> r[1] == FirstByTag(SanitizedRegistry(reg)[1], AliasTag, {})
  {
    var cs := SanitizedRegistry(reg);
    if 1 in cs then cs[1 := FirstByTag(cs[1], AliasTag, {})] else cs
  }

  /** After loading, every registry name is a sanitised stored name, and the
      category-1 names have distinct, non-empty tags. */
  lemma LoadedRegistryProps(reg: Registry)
    ensures var r := LoadedRegistry(reg);
      (forall c, n :: c in r && n in r[c] ==> exists k :: 0 <= k < |reg[c]| && n == SanitizeStoredText(reg[c][k])) &&
      (1 in r ==> DistinctTags(r[1], AliasTag)) &&
      (1 in r ==> forall n :: n in r[1] ==> AliasTag(n) != [])
  {
    var r := LoadedRegistry(reg);
    var cs := SanitizedRegistry(reg);
    forall c, n | c in r && n in r[c] ensures exists k :: 0 <= k < |reg[c]| && n == SanitizeStoredText(reg[c][k]) {
      assert n in cs[c];
      var k :| 0 <= k < |cs[c]| && cs[c][k] == n;
    }
    if 1 in r {
      FirstByTagDistinct(cs[1], AliasTag, {});
    }
  }
}
