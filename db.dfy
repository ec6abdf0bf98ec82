/**
 * The IndexedDB adapter of db.js: a `tasks` object store keyed by `id`, a
 * `meta` store of which only the `migrated_v1` flag is used, and the legacy
 * `tasks` entry of local storage. The object store is a map from keys to
 * records. Every request that can fail is given a fault parameter saying
 * which one fails.
 */
module Db {
  import opened Wrappers
  import opened Repair

  /** The size of the slices `saveAllTasks` writes between two pauses. */
  const Chunk: nat := 200

  /** The key path of the `tasks` store: every record sits under its `id`. */
  predicate Keyed(table: map<int, RawTask>) {
    forall k :: k in table ==> table[k].id == k
  }

  /** What a table cleared and then given `list` one `store.put` at a time
      holds: each put stores the record under its `id`, replacing the record
      stored there before. */
  function TableOf(list: seq<RawTask>): map<int, RawTask> {
    if list == [] then map[] else TableOf(list[..|list| - 1])[list[|list| - 1].id := list[|list| - 1]]
  }

  lemma TableOfSnoc(list: seq<RawTask>, x: RawTask)
    ensures TableOf(list + [x]) == TableOf(list)[x.id := x]
  {
    assert (list + [x])[..|list|] == list;
  }

  /** The last record of `list` with key `id`, if any. */
  function Latest(list: seq<RawTask>, id: int): (r: Option<RawTask>)
    ensures r.None? <==> forall i :: 0 <= i < |list| ==> list[i].id != id
    ensures r.Some? ==> r.value in list && r.value.id == id
  {
    if list == [] then None
    else if list[|list| - 1].id == id then Some(list[|list| - 1])
    else
      var r := Latest(list[..|list| - 1], id);
      assert forall i :: 0 <= i < |list| - 1 ==> list[..|list| - 1][i] == list[i];
      assert r.Some? ==> r.value in list by {
        if r.Some? {
          var k :| 0 <= k < |list| - 1 && list[..|list| - 1][k] == r.value;
          assert list[k] == r.value;
        }
      }
      r
  }

  /** After the puts, the table holds for every key the last record given
      with it, and no other key: a later duplicate replaces an earlier one. */
  lemma {:induction false} TableOfContents(list: seq<RawTask>)
    ensures forall k :: k in TableOf(list) <==> Latest(list, k).Some?
    ensures forall k :: k in TableOf(list) ==> Latest(list, k) == Some(TableOf(list)[k])
  {
    if list != [] {
      var front := list[..|list| - 1];
      var last := list[|list| - 1];
      TableOfContents(front);
      assert list == front + [last];
      forall k ensures Latest(list, k) == if k == last.id then Some(last) else Latest(front, k) {
      }
    }
  }

  /** Every record of the table sits under its own key. */
  lemma TableOfKeyed(list: seq<RawTask>)
    ensures Keyed(TableOf(list))
  {
    TableOfContents(list);
  }

  /** With distinct keys the table holds exactly the records given, each
      under its own key. */
  lemma TableOfDistinct(list: seq<RawTask>)
    requires forall i, j :: 0 <= i < j < |list| ==> list[i].id != list[j].id
    ensures forall x :: x in list ==> x.id in TableOf(list) && TableOf(list)[x.id] == x
    ensures forall k :: k in TableOf(list) ==> TableOf(list)[k] in list
  {
    TableOfContents(list);
    forall x | x in list ensures x.id in TableOf(list) && TableOf(list)[x.id] == x {
      var k :| 0 <= k < |list| && list[k] == x;
      var l := Latest(list, x.id);
      var m :| 0 <= m < |list| && list[m] == l.value;
      assert m == k;
    }
  }

  /** The table is empty exactly when nothing was put. */
  lemma TableOfEmpty(list: seq<RawTask>)
    ensures TableOf(list) == map[] <==> list == []
  {
    if list != [] {
      assert list[|list| - 1].id in TableOf(list);
    }
  }

  /** The end of the slice holding index `i` of a list of length `n`. */
  function ChunkEnd(i: nat, n: nat): (e: nat)
    requires i < n
    ensures i < e <= n && e <= i + Chunk
    ensures e < n ==> e % Chunk == 0
  {
    var e := (i / Chunk + 1) * Chunk;
    if e < n then e else n
  }

  /** A slice starting at a multiple of the chunk size ends where `ChunkEnd`
      says for each of its indices. */
  lemma ChunkEndInSlice(start: nat, i: nat, n: nat)
    requires start % Chunk == 0 && start <= i < start + Chunk && i < n
    ensures ChunkEnd(i, n) == if start + Chunk < n then start + Chunk else n
  {
    var q := start / Chunk;
    assert start == q * Chunk;
    assert i / Chunk == q;
  }

  /** The records whose puts commit when the put of index `at` fails: every
      put of the earlier slices and the other puts of the same slice, which
      were already issued; the later slices are never written. */
  function Written(list: seq<RawTask>, at: nat): (r: seq<RawTask>)
    requires at < |list|
    ensures |r| == ChunkEnd(at, |list|) - 1
    ensures forall k :: 0 <= k < |r| ==> r[k] == (if k < at then list[k] else list[k + 1])
  {
    list[..at] + list[at + 1..ChunkEnd(at, |list|)]
  }

  /** The request of `saveAllTasks` that rejects, if any. */
  datatype SaveFault = NoSaveFault | ClearFails | PutFails(at: nat)

  /** Whether `saveAllTasks(list)` resolves: nothing it issues fails. */
  predicate SaveSucceeds(f: SaveFault, n: nat) {
    f.NoSaveFault? || (f.PutFails? && f.at >= n)
  }

  /** The request of `migrateFromLocalStorageIfNeeded` that rejects, if any. */
  datatype Fault = NoFault | MetaReadFails | ReadAllFails | SaveFails(save: SaveFault) | MetaWriteFails

  /** Whether the migration gets to its end. */
  predicate Completes(f: Fault, n: nat) {
    f.NoFault? || (f.SaveFails? && SaveSucceeds(f.save, n))
  }

  /** The legacy entry holds a non-empty JSON array. */
  predicate Migratable(blob: LegacyBlob) {
    blob.Items? && blob.items != []
  }

  /** The records of `list[..j]` whose put is issued and succeeds when the
      put of index `skip` fails. */
  function Issued(list: seq<RawTask>, skip: int, j: nat): (r: seq<RawTask>)
    requires j <= |list|
  {
    if j == 0 then [] else Issued(list, skip, j - 1) + (if j - 1 == skip then [] else [list[j - 1]])
  }

  /** Without a failing put among them, all of `list[..j]` is written. */
  lemma {:induction false} IssuedAll(list: seq<RawTask>, skip: int, j: nat)
    requires j <= |list| && (skip < 0 || skip >= j)
    ensures Issued(list, skip, j) == list[..j]
  {
    if j > 0 {
      IssuedAll(list, skip, j - 1);
      assert list[..j] == list[..j - 1] + [list[j - 1]];
    }
  }

  /** With a failing put at `at`, everything but that record is written. */
  lemma {:induction false} IssuedSkip(list: seq<RawTask>, at: nat, j: nat)
    requires at < j <= |list|
    ensures Issued(list, at, j) == list[..at] + list[at + 1..j]
  {
    if j == at + 1 {
      IssuedAll(list, at, at);
      assert list[at + 1..j] == [];
    } else {
      IssuedSkip(list, at, j - 1);
      assert list[at + 1..j] == list[at + 1..j - 1] + [list[j - 1]];
    }
  }

  /** A put failing in the slice that starts at `start` loses that record
      and the later slices. */
  lemma FailedSlice(list: seq<RawTask>, start: nat, at: nat)
    requires start % Chunk == 0 && start <= at < start + Chunk && at < |list|
    ensures Issued(list, at, if start + Chunk < |list| then start + Chunk else |list|) == Written(list, at)
  {
    ChunkEndInSlice(start, at, |list|);
    IssuedSkip(list, at, ChunkEnd(at, |list|));
  }

  /** Without a failing put, the whole list is written. */
  lemma IssuedWhole(list: seq<RawTask>, skip: int)
    requires skip < 0 || skip >= |list|
    ensures Issued(list, skip, |list|) == list
  {
    IssuedAll(list, skip, |list|);
    assert list[..|list|] == list;
  }

  /** The index whose put fails, or -1. */
  function SkipOf(fault: SaveFault): int {
    if fault.PutFails? then fault.at else -1
  }

  /** The puts of one slice, `list[start..end]`, issued one after the other
      on a table holding the earlier slices; only the failing put, if any, is
      lost. */
  method PutSlice(t: map<int, RawTask>, list: seq<RawTask>, start: nat, end: nat, fault: SaveFault)
    returns (r: map<int, RawTask>, failed: bool)
    requires start <= end <= |list|
    requires t == TableOf(Issued(list, SkipOf(fault), start)) && !(fault.PutFails? && fault.at < start)
    ensures failed <==> fault.PutFails? && fault.at < end
    ensures r == TableOf(Issued(list, SkipOf(fault), end))
  {
    r := t;
    failed := false;
    var j := start;
    while j < end
      invariant start <= j <= end
      invariant failed <==> fault.PutFails? && fault.at < j
      invariant r == TableOf(Issued(list, SkipOf(fault), j))
    {
      ghost var before := Issued(list, SkipOf(fault), j);
      if fault == PutFails(j) {
        failed := true;
        assert Issued(list, SkipOf(fault), j + 1) == before + [] == before;
      } else {
        TableOfSnoc(before, list[j]);
        assert Issued(list, SkipOf(fault), j + 1) == before + [list[j]];
        r := r[list[j].id := list[j]];
      }
      j := j + 1;
    }
  }

  class TaskDb {
    /** The `tasks` object store. */
    var table: map<int, RawTask>
    /** The `migrated_v1` entry of the `meta` store. */
    var migrated: bool
    /** The `tasks` entry of local storage, which this file only reads. */
    var legacy: LegacyBlob

    /** A database created by `onupgradeneeded`: both stores empty. */
    constructor (blob: LegacyBlob)
      ensures table == map[] && !migrated && legacy == blob
    {
      table := map[];
      migrated := false;
      legacy := blob;
    }

    predicate Valid()
      reads this
    {
      Keyed(table)
    }

    /** Whether a migration would copy the legacy entry: the flag is unset,
        the table is empty and the entry is a non-empty array. */
    predicate MigrationDue()
      reads this
    {
      !migrated && table == map[] && Migratable(legacy)
    }

    /** `saveAllTasks(list)`: the table is cleared, then every record is put,
        in slices of `Chunk`; the puts of one slice are issued together and
        the next slice waits for all of them. A failing request rejects the
        call. */
    method SaveAllTasks(list: seq<RawTask>, fault: SaveFault) returns (ok: bool)
      modifies this
      ensures ok <==> SaveSucceeds(fault, |list|)
      ensures ok ==> table == TableOf(list)
      ensures fault.ClearFails? ==> table == old(table)
      ensures fault.PutFails? && fault.at < |list| ==> table == TableOf(Written(list, fault.at))
      ensures migrated == old(migrated) && legacy == old(legacy)
      ensures old(Valid()) ==> Valid()
    {
      if fault.ClearFails? {
        return false;
      }
      var t: map<int, RawTask> := map[];
      var i := 0;
      while i < |list|
        invariant 0 <= i <= |list|
        invariant i < |list| ==> i % Chunk == 0
        invariant !(fault.PutFails? && fault.at < i)
        invariant t == TableOf(Issued(list, SkipOf(fault), i))
        invariant unchanged(this)
      {
        var end := if i + Chunk < |list| then i + Chunk else |list|;
        var failed;
        t, failed := PutSlice(t, list, i, end, fault);
        if failed {
          FailedSlice(list, i, fault.at);
          TableOfKeyed(Written(list, fault.at));
          table := t;
          return false;
        }
        i := end;
      }
      IssuedWhole(list, SkipOf(fault));
      TableOfKeyed(list);
      table := t;
      ok := true;
    }

    /** `migrateFromLocalStorageIfNeeded`: copies the legacy entry into an
        empty table once, then sets the flag; every failure is caught and
        gives `false`. */
    method Migrate(fault: Fault) returns (r: bool)
      modifies this
      ensures legacy == old(legacy) && (old(migrated) ==> migrated)
      ensures r <==> old(MigrationDue()) && Completes(fault, |legacy.items|)
      ensures r ==> table == TableOf(legacy.items) && migrated
      ensures !old(MigrationDue()) || fault.MetaReadFails? || fault.ReadAllFails? ==>
        table == old(table) && migrated == old(migrated)
      ensures old(MigrationDue()) && fault.SaveFails? && !SaveSucceeds(fault.save, |legacy.items|) ==>
        !migrated &&
        (fault.save.ClearFails? ==> table == old(table)) &&
        (fault.save.PutFails? ==> table == TableOf(Written(legacy.items, fault.save.at)))
      ensures old(MigrationDue()) && fault.MetaWriteFails? ==> table == TableOf(legacy.items) && !migrated
      ensures r || fault.MetaWriteFails? ==> !MigrationDue()
      ensures old(Valid()) ==> Valid()
    {
      if fault.MetaReadFails? {
        return false;
      }
      var flag := migrated;
      if fault.ReadAllFails? {
        return false;
      }
      var existing := table;
      if flag || existing != map[] {
        return false;
      }
      if !Migratable(legacy) {
        return false;
      }
      var save := if fault.SaveFails? then fault.save else NoSaveFault;
      var ok := SaveAllTasks(legacy.items, save);
      if !ok {
        return false;
      }
      TableOfEmpty(legacy.items);
      if fault.MetaWriteFails? {
        return false;
      }
      migrated := true;
      r := true;
    }

    /** `init`: opens the database and runs the migration, whose failures
        never reach the caller. */
    method Init(fault: Fault)
      modifies this
      ensures legacy == old(legacy)
      ensures old(MigrationDue()) && Completes(fault, |legacy.items|) ==> table == TableOf(legacy.items) && migrated
      ensures !old(MigrationDue()) ==> table == old(table) && migrated == old(migrated)
      ensures old(Valid()) ==> Valid()
    {
      var _ := Migrate(fault);
    }
  }
}
