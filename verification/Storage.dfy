/**
  `Storage`: the key/value store as an object. `tables` is what its connection sees, `committed` what
  a rollback goes back to; `revision` is the version of the hook scope that is open.
 */
module Storage {
  import opened LikePatterns
  import opened Wrappers
  import opened Revisions
  import opened Ranges
  import opened Sequences

  /** How a scope's body ends by itself: normally, with an exception, or with one that is not an
      `Exception` (a request to exit), which the scope does not catch. */
  datatype BodyEnd = Completes | Raises | Escapes

  class Storage {
    const keepRevisions: bool
    var tables: Tables
    var committed: Tables
    var revision: Option<nat>

    /** Connecting to a database file with this content. */
    constructor (content: Tables, keepRevisions: bool)
      ensures this.keepRevisions == keepRevisions
      ensures tables == committed == content && revision == None
    {
      this.keepRevisions := keepRevisions;
      tables, committed, revision := content, content, None;
    }

    method Get(key: string, default: Json) returns (value: Json)
      ensures value == if key in tables.kv then tables.kv[key] else default
    {
      value := if key in tables.kv then tables.kv[key] else default;
    }

    /** `getrange`. Stripped, it is the range under the prefix as long as the scan finds nothing else. */
    method GetRange(prefix: string, strip: bool) returns (r: Store)
      ensures !strip ==> r == Scanned(tables.kv, prefix)
      ensures strip ==> StrippedScan(tables.kv, prefix, r)
      ensures strip && Distinct(tables.kv, prefix) ==> r == RangeOf(tables.kv, prefix)
    {
      var rows := Scanned(tables.kv, prefix);
      r := map[];
      var cut := if strip then |prefix| else 0;
      var keys := rows.Keys;
      while keys != {}
        invariant keys <= rows.Keys
        invariant forall k :: k in rows && k !in keys ==> Strip(k, cut) in r
        invariant forall x :: x in r ==> exists k :: k in rows && k !in keys && Strip(k, cut) == x && rows[k] == r[x]
        decreases keys
      {
        var k :| k in keys;
        ghost var before, left := r, keys;
        keys := keys - {k};
        r := r[Strip(k, cut) := rows[k]];
        forall x | x in r ensures exists j :: j in rows && j !in keys && Strip(j, cut) == x && rows[j] == r[x] {
          if x == Strip(k, cut) {
            assert k in rows && k !in keys;
          } else {
            var j :| j in rows && j !in left && Strip(j, cut) == x && rows[j] == before[x];
          }
        }
      }
      if strip {
        if Distinct(tables.kv, prefix) {
          StrippedScanIsRange(tables.kv, prefix, r);
        }
      } else {
        forall x | x in rows ensures x in r {
          assert Strip(x, 0) == x;
        }
        forall x | x in r ensures x in rows && r[x] == rows[x] {
          var k :| k in rows && Strip(k, 0) == x && rows[k] == r[x];
        }
      }
    }

    method Set(key: string, value: Json)
      modifies this`tables
      ensures tables == SetTables(old(tables), keepRevisions, revision, key, value)
      ensures tables.kv == old(tables).kv[key := value]
      ensures tables.revisions ==
              if keepRevisions && revision.Some? && !(key in old(tables).kv && old(tables).kv[key] == value)
              then old(tables).revisions[(key, revision.value) := value] else old(tables).revisions
      ensures tables.hooks == old(tables).hooks && tables.lastVersion == old(tables).lastVersion
    {
      var exists_ := key in tables.kv;
      if exists_ && tables.kv[key] == value {
        return;
      }
      tables := tables.(kv := tables.kv[key := value]);
      if !keepRevisions || revision.None? {
        return;
      }
      tables := tables.(revisions := tables.revisions[(key, revision.value) := value]);
    }

    /** `update`: the order in which the mapping is walked does not matter. */
    method Update(mapping: Store, prefix: string)
      modifies this`tables
      ensures tables == UpdateTables(old(tables), keepRevisions, revision, mapping, prefix)
      ensures forall x :: x in mapping ==> prefix + x in tables.kv && tables.kv[prefix + x] == mapping[x]
      ensures forall k :: k in tables.kv ==> (k in old(tables).kv && tables.kv[k] == old(tables).kv[k])
                                             || (prefix <= k && k[|prefix|..] in mapping)
      ensures old(tables).kv.Keys <= tables.kv.Keys
    {
      ghost var before := tables;
      var keys := mapping.Keys;
      assert mapping - keys == map[];
      NothingStored(before, keepRevisions, revision, prefix);
      while keys != {}
        invariant keys <= mapping.Keys
        invariant tables == UpdateTables(before, keepRevisions, revision, mapping - keys, prefix)
        decreases keys
      {
        var k :| k in keys;
        UpdateStep(before, keepRevisions, revision, mapping - keys, prefix, k, mapping[k]);
        TakeOut(mapping, keys, k);
        Set(prefix + k, mapping[k]);
        keys := keys - {k};
      }
      assert mapping - {} == mapping;
      UpdatedKeys(before, keepRevisions, revision, mapping, prefix);
    }

    /** `unset`. The row is deleted before the removal is logged, and stays deleted when logging fails. */
    method Unset(key: string) returns (outcome: Option<Error>)
      modifies this`tables
      ensures tables == UnsetTables(old(tables), keepRevisions, revision, key)
      ensures tables.kv == old(tables).kv - {key}
      ensures var logs := keepRevisions && revision.Some? && key in old(tables).kv;
              && (outcome.Some? <==> logs && (key, revision.value) in old(tables).revisions)
              && tables.revisions == if logs && outcome.None?
                                     then old(tables).revisions[(key, revision.value) := DELETED]
                                     else old(tables).revisions
      ensures tables.hooks == old(tables).hooks && tables.lastVersion == old(tables).lastVersion
      ensures outcome == if UnsetFails(old(tables), keepRevisions, revision, key) then Some(IntegrityError) else None
    {
      var deleted := key in tables.kv;
      tables := tables.(kv := tables.kv - {key});
      if keepRevisions && revision.Some? && deleted {
        if (key, revision.value) in tables.revisions {
          return Some(IntegrityError);
        }
        tables := tables.(revisions := tables.revisions[(key, revision.value) := DELETED]);
      }
      return None;
    }

    /** `unsetrange(keys, prefix)`. */
    method UnsetKeys(names: seq<string>, prefix: string) returns (outcome: Option<Error>)
      modifies this`tables
      ensures forall n :: n in names ==> prefix + n !in tables.kv
      ensures forall k :: k in tables.kv ==> k in old(tables).kv && tables.kv[k] == old(tables).kv[k]
      ensures forall k :: k in old(tables).kv && k !in tables.kv ==> prefix <= k && k[|prefix|..] in names
      ensures var logs := keepRevisions && revision.Some? && exists n :: n in names && prefix + n in old(tables).kv;
              && (outcome.Some? <==>
                    logs && ((exists i, j :: 0 <= i < j < |names| && names[i] == names[j])
                             || exists n :: n in names && (prefix + n, revision.value) in old(tables).revisions))
              && (!logs || outcome.Some? ==> tables.revisions == old(tables).revisions)
              && (logs && outcome.None? ==>
                    && (forall n :: n in names ==> (prefix + n, revision.value) in tables.revisions
                                                   && tables.revisions[(prefix + n, revision.value)] == DELETED)
                    && (forall p :: p in old(tables).revisions
                                    ==> p in tables.revisions && tables.revisions[p] == old(tables).revisions[p])
                    && (forall p :: p in tables.revisions && p !in old(tables).revisions
                                    ==> p.1 == revision.value && prefix <= p.0 && p.0[|prefix|..] in names))
      ensures tables.hooks == old(tables).hooks && tables.lastVersion == old(tables).lastVersion
      ensures tables == UnsetKeysTables(old(tables), keepRevisions, revision, PrefixAll(names, prefix))
      ensures outcome == if UnsetKeysFails(old(tables), keepRevisions, revision, PrefixAll(names, prefix))
                         then Some(IntegrityError) else None
    {
      var keys := PrefixAll(names, prefix);
      UnsetKeysGone(tables, keepRevisions, revision, names, prefix);
      UnsetKeysFailing(tables, keepRevisions, revision, names, prefix);
      UnsetKeysRows(tables, keepRevisions, revision, names, prefix);
      var deleted := exists k :: k in keys && k in tables.kv;
      ghost var before := tables;
      tables := tables.(kv := map k | k in tables.kv && k !in keys :: tables.kv[k]);
      if keepRevisions && revision.Some? && deleted {
        if !NoDuplicates(keys) || exists k :: k in keys && (k, revision.value) in tables.revisions {
          return Some(IntegrityError);
        }
        tables := tables.(revisions := tables.revisions + map k | k in keys :: (k, revision.value) := DELETED);
      }
      return None;
    }

    /** `unsetrange(prefix=...)`. */
    method UnsetPrefix(prefix: string) returns (outcome: Option<Error>)
      modifies this`tables
      ensures forall k :: k in tables.kv <==> k in old(tables).kv && !InScan(prefix, k)
      ensures forall k :: k in tables.kv ==> tables.kv[k] == old(tables).kv[k]
      ensures var logs := keepRevisions && revision.Some? && exists k :: k in old(tables).kv && InScan(prefix, k);
              && (outcome.Some? <==> logs && (prefix + "%", revision.value) in old(tables).revisions)
              && tables.revisions == if logs && outcome.None?
                                     then old(tables).revisions[(prefix + "%", revision.value) := DELETED]
                                     else old(tables).revisions
      ensures tables.hooks == old(tables).hooks && tables.lastVersion == old(tables).lastVersion
      ensures tables == UnsetPrefixTables(old(tables), keepRevisions, revision, prefix)
      ensures outcome == if UnsetPrefixFails(old(tables), keepRevisions, revision, prefix)
                         then Some(IntegrityError) else None
    {
      var gone := Scanned(tables.kv, prefix);
      assert gone != map[] <==> exists k :: k in gone;
      tables := tables.(kv := tables.kv - gone.Keys);
      if keepRevisions && revision.Some? && gone != map[] {
        if (prefix + "%", revision.value) in tables.revisions {
          return Some(IntegrityError);
        }
        tables := tables.(revisions := tables.revisions[(prefix + "%", revision.value) := DELETED]);
      }
      return None;
    }

    method Flush(save: bool)
      modifies this`tables, this`committed
      ensures tables == committed == if save then old(tables) else old(committed)
    {
      if save {
        committed := tables;
      } else {
        tables := committed;
      }
    }

    /** One operation of a scope's body. */
    method Perform(op: Op) returns (failure: Option<Error>)
      modifies this`tables, this`committed
      ensures tables == OpTables(old(tables), keepRevisions, revision, op)
      ensures committed == if op.Save? then old(tables) else old(committed)
      ensures failure == if OpFails(old(tables), keepRevisions, revision, op) then Some(IntegrityError) else None
    {
      failure := None;
      match op {
        case Set(k, v) => Set(k, v);
        case Update(m, p) => Update(m, p);
        case Unset(k) => failure := Unset(k);
        case UnsetAll(names, p) => failure := UnsetKeys(names, p);
        case Save => Flush(true);
      }
    }

    /** A scope's body: the first operation that raises ends it there. */
    method PerformAll(ops: seq<Op>) returns (failure: Option<Error>)
      modifies this`tables, this`committed
      ensures OpsTables(old(tables), keepRevisions, revision, ops)
              == if failure.Some? then Raise(failure.value) else Ok(tables)
      ensures committed == SavedAfter(old(tables), old(committed), keepRevisions, revision, ops)
      ensures failure.Some? ==> failure.value == IntegrityError
    {
      ghost var begun, saved := tables, committed;
      for i := 0 to |ops|
        invariant OpsTables(begun, keepRevisions, revision, ops[..i]) == Ok(tables)
        invariant committed == SavedAfter(begun, saved, keepRevisions, revision, ops[..i])
      {
        ghost var before, last := tables, committed;
        failure := Perform(ops[i]);
        AfterOp(begun, saved, keepRevisions, revision, ops, i, before, last, tables, committed, failure);
        if failure.Some? {
          return;
        }
      }
      assert ops[..|ops|] == ops;
      failure := None;
    }

    /** `with hook_scope(name)` around a body that performs `ops` and then ends as `end` says. */
    method HookScope(name: string, ops: seq<Op>, end: BodyEnd) returns (outcome: Result<nat, Error>)
      modifies this
      ensures old(revision).Some? ==>
                outcome == Raise(AssertionFailure)
                && tables == old(tables) && committed == old(committed) && revision == old(revision)
      ensures old(revision).None? ==>
                var begun := OpenScope(old(tables), name);
                var done := OpsTables(begun, keepRevisions, Some(begun.lastVersion), ops);
                var saved := SavedAfter(begun, old(committed), keepRevisions, Some(begun.lastVersion), ops);
                if done.Ok? && end.Completes? then
                  outcome == Ok(begun.lastVersion) && tables == committed == done.value && revision == None
                  && outcome.value == old(tables).lastVersion + 1 == tables.lastVersion
                  && tables.hooks == old(tables).hooks[outcome.value := name]
                else if done.Ok? && end.Escapes? then
                  outcome == Raise(BodyError) && tables == done.value && committed == saved
                  && revision == Some(begun.lastVersion)
                else
                  outcome == Raise(if done.Ok? then BodyError else IntegrityError)
                  && tables == committed == saved && revision == None
      ensures old(revision).None? && !end.Escapes? ==>
                Disk(tables, committed) ==
                ScopeDisk(Disk(old(tables), old(committed)), keepRevisions, Scope(name, ops, end.Raises?))
    {
      if revision.Some? {
        return Raise(AssertionFailure);
      }
      var version := tables.lastVersion + 1;
      tables := tables.(hooks := tables.hooks[version := name], lastVersion := version);
      revision := Some(version);
      var failure := PerformAll(ops);
      if failure.None? {
        OpsKeepHooks(tables, keepRevisions, revision, ops, OpenScope(old(tables), name));
      }
      if failure.None? && end.Escapes? {
        return Raise(BodyError);
      }
      if failure.Some? || end.Raises? {
        Flush(false);
        revision := None;
        return Raise(if failure.Some? then failure.value else BodyError);
      }
      revision := None;
      Flush(true);
      return Ok(version);
    }

    /** `delta`: what has changed between the stored range and the mapping. */
    method DeltaFrom(mapping: Store, prefix: string) returns (delta: map<string, Delta>)
      ensures exists previous :: StrippedScan(tables.kv, prefix, previous) && delta == DeltaOf(previous, mapping)
      ensures Distinct(tables.kv, prefix) ==> delta == DeltaOf(RangeOf(tables.kv, prefix), mapping)
    {
      var previous := GetRange(prefix, true);
      delta := Compare(previous, mapping);
    }

    /** `gethistory`: the key's rows joined with the hooks they name. */
    method GetHistory(key: string) returns (rows: set<(nat, Json, string)>)
      ensures rows == set r | (key, r) in tables.revisions && r in tables.hooks
                        :: (r, tables.revisions[(key, r)], tables.hooks[r])
      ensures RowsSound(tables) ==>
                forall r :: (key, r) in tables.revisions
                            ==> r in tables.hooks && (r, tables.revisions[(key, r)], tables.hooks[r]) in rows
    {
      rows := set r | r in tables.hooks && (key, r) in tables.revisions
                :: (r, tables.revisions[(key, r)], tables.hooks[r]);
    }
  }

  /** The three loops of `delta`: added, removed and changed keys. */
  method Compare(previous: Store, mapping: Store) returns (delta: map<string, Delta>)
    ensures delta == DeltaOf(previous, mapping)
    ensures forall k :: k in delta <==>
              (k in previous) != (k in mapping) || (k in previous && k in mapping && previous[k] != mapping[k])
    ensures forall k :: k in delta ==> delta[k].previous == (if k in previous then previous[k] else Null)
                                       && delta[k].current == if k in mapping then mapping[k] else Null
  {
    var pk, ck := previous.Keys, mapping.Keys;
    delta := map[];
    ghost var done: set<string> := {};
    var added := ck - pk;
    while added != {}
      invariant added <= ck - pk && done == ck - pk - added
      invariant delta == DeltaWithin(previous, mapping, done)
      decreases added
    {
      var k :| k in added;
      DeltaStep(previous, mapping, done, k);
      delta := delta[k := Delta(Null, mapping[k])];
      added, done := added - {k}, done + {k};
    }
    var removed := pk - ck;
    while removed != {}
      invariant removed <= pk - ck && done == ck - pk + (pk - ck - removed)
      invariant delta == DeltaWithin(previous, mapping, done)
      decreases removed
    {
      var k :| k in removed;
      DeltaStep(previous, mapping, done, k);
      delta := delta[k := Delta(previous[k], Null)];
      removed, done := removed - {k}, done + {k};
    }
    var common := pk * ck;
    while common != {}
      invariant common <= pk * ck && done == pk + ck - common
      invariant delta == DeltaWithin(previous, mapping, done)
      decreases common
    {
      var k :| k in common;
      DeltaStep(previous, mapping, done, k);
      if mapping[k] != previous[k] {
        delta := delta[k := Delta(previous[k], mapping[k])];
      }
      common, done := common - {k}, done + {k};
    }
  }

  lemma TakeOut(mapping: Store, keys: set<string>, k: string)
    requires k in keys && k in mapping
    ensures (mapping - keys)[k := mapping[k]] == mapping - (keys - {k})
  {
  }

  lemma NothingStored(t: Tables, keep: bool, scope: Option<nat>, prefix: string)
    ensures UpdateTables(t, keep, scope, map[], prefix) == t
  {
    NothingPrefixed(prefix);
    assert t.kv + map[] == t.kv;
    if keep && scope.Some? {
      NothingLogged(t.kv, scope.value);
      assert t.revisions + map[] == t.revisions;
    }
  }

  lemma NothingPrefixed(prefix: string)
    ensures Prefixed(map[], prefix) == map[]
  {
  }

  lemma NothingLogged(kv: Store, n: nat)
    ensures Rows(kv, map[], n) == map[]
  {
  }

  lemma OneMoreOp(t: Tables, saved: Tables, keep: bool, scope: Option<nat>, ops: seq<Op>, i: nat)
    requires i < |ops| && OpsTables(t, keep, scope, ops[..i]).Ok?
    ensures var now := OpsTables(t, keep, scope, ops[..i]).value;
            && OpsTables(t, keep, scope, ops[..i + 1]) ==
               (if OpFails(now, keep, scope, ops[i]) then Raise(IntegrityError)
                else Ok(OpTables(now, keep, scope, ops[i])))
            && SavedAfter(t, saved, keep, scope, ops[..i + 1]) ==
               if ops[i].Save? then now else SavedAfter(t, saved, keep, scope, ops[..i])
  {
    assert ops[..i + 1][..i] == ops[..i];
  }

  /** Once an operation has raised, what the body leaves is settled. */
  lemma {:induction false} FailureStays(t: Tables, saved: Tables, keep: bool, scope: Option<nat>, ops: seq<Op>, i: nat)
    requires 0 < i <= |ops| && OpsTables(t, keep, scope, ops[..i - 1]).Ok?
    requires OpsTables(t, keep, scope, ops[..i]).Raise?
    ensures OpsTables(t, keep, scope, ops) == OpsTables(t, keep, scope, ops[..i])
    ensures SavedAfter(t, saved, keep, scope, ops) == SavedAfter(t, saved, keep, scope, ops[..i - 1])
    decreases |ops|
  {
    if i < |ops| {
      assert ops[..|ops| - 1][..i] == ops[..i] && ops[..|ops| - 1][..i - 1] == ops[..i - 1];
      FailureStays(t, saved, keep, scope, ops[..|ops| - 1], i);
    } else {
      assert ops[..i] == ops && ops[..i][..i - 1] == ops[..i - 1];
    }
  }

  lemma AfterOp(t: Tables, saved: Tables, keep: bool, scope: Option<nat>, ops: seq<Op>, i: nat, before: Tables,
                last: Tables, after: Tables, committed: Tables, failure: Option<Error>)
    requires i < |ops| && OpsTables(t, keep, scope, ops[..i]) == Ok(before)
    requires last == SavedAfter(t, saved, keep, scope, ops[..i])
    requires after == OpTables(before, keep, scope, ops[i])
    requires committed == if ops[i].Save? then before else last
    requires failure == if OpFails(before, keep, scope, ops[i]) then Some(IntegrityError) else None
    ensures failure.None? ==> OpsTables(t, keep, scope, ops[..i + 1]) == Ok(after)
                              && committed == SavedAfter(t, saved, keep, scope, ops[..i + 1])
    ensures failure.Some? ==> OpsTables(t, keep, scope, ops) == Raise(failure.value)
                              && committed == SavedAfter(t, saved, keep, scope, ops)
  {
    OneMoreOp(t, saved, keep, scope, ops, i);
    if failure.Some? {
      FailureStays(t, saved, keep, scope, ops, i + 1);
    }
  }

  /** Operations neither name nor number a scope. */
  lemma {:induction false} OpsKeepHooks(t': Tables, keep: bool, scope: Option<nat>, ops: seq<Op>, t: Tables)
    requires OpsTables(t, keep, scope, ops) == Ok(t')
    ensures t'.hooks == t.hooks && t'.lastVersion == t.lastVersion
    decreases |ops|
  {
    if ops != [] {
      var before := OpsTables(t, keep, scope, ops[..|ops| - 1]).value;
      OpsKeepHooks(before, keep, scope, ops[..|ops| - 1], t);
      OnlyScopesLog(before, keep, scope, ops[|ops| - 1], ("", 0));
    }
  }

  lemma UpdatedKeys(t: Tables, keep: bool, scope: Option<nat>, mapping: Store, prefix: string)
    ensures var kv := UpdateTables(t, keep, scope, mapping, prefix).kv;
            && (forall x :: x in mapping ==> prefix + x in kv && kv[prefix + x] == mapping[x])
            && (forall k :: k in kv ==> (k in t.kv && kv[k] == t.kv[k]) || (prefix <= k && k[|prefix|..] in mapping))
            && t.kv.Keys <= kv.Keys
  {
    forall x | x in mapping ensures prefix + x in Prefixed(mapping, prefix)
                                    && Prefixed(mapping, prefix)[prefix + x] == mapping[x]
    {
      PrefixedAt(mapping, prefix, x);
    }
    forall k | k in Prefixed(mapping, prefix) ensures prefix <= k && k[|prefix|..] in mapping {
      PrefixedHasPrefix(mapping, prefix, k);
      PrefixedAt(mapping, prefix, k[|prefix|..]);
    }
  }
}
