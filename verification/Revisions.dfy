/**
  The key/value store's tables and what its operations do to them. A hook scope writes rows of the
  revision log under the scope's own version; the log is keyed by (key, version), and inserting a
  row that exists is an error.
 */
module Revisions {
  import opened Sequences
  import opened Wrappers

  /** A stored value. JSON text and value determine each other; `Null` is the value `None`. */
  datatype Json = Null | Str(text: string) | Other(repr: string)

  type Store = map<string, Json>

  datatype Tables = Tables(
    kv: Store,
    revisions: map<(string, nat), Json>,
    hooks: map<nat, string>,
    lastVersion: nat)

  datatype Error = AssertionFailure | IntegrityError | BodyError

  /** What the log records for a removed key. */
  const DELETED := Str("DELETED")

  function EmptyTables(): Tables {
    Tables(map[], map[], map[], 0)
  }

  /** `set`: skip an equal value, else store it and log it under the open scope's version. */
  function SetTables(t: Tables, keep: bool, scope: Option<nat>, key: string, value: Json): Tables {
    if key in t.kv && t.kv[key] == value then t
    else t.(kv := t.kv[key := value],
            revisions := if keep && scope.Some? then t.revisions[(key, scope.value) := value] else t.revisions)
  }

  predicate UnsetFails(t: Tables, keep: bool, scope: Option<nat>, key: string) {
    keep && scope.Some? && key in t.kv && (key, scope.value) in t.revisions
  }

  /** `unset`: the row is gone even when logging the removal fails. */
  function UnsetTables(t: Tables, keep: bool, scope: Option<nat>, key: string): Tables {
    t.(kv := t.kv - {key},
       revisions := if keep && scope.Some? && key in t.kv && (key, scope.value) !in t.revisions
                    then t.revisions[(key, scope.value) := DELETED] else t.revisions)
  }

  /** `update`: what setting every prefixed key comes to, in any order. */
  function UpdateTables(t: Tables, keep: bool, scope: Option<nat>, mapping: Store, prefix: string): Tables {
    Stored(t, keep, scope, Prefixed(mapping, prefix))
  }

  function Stored(t: Tables, keep: bool, scope: Option<nat>, news: Store): Tables {
    t.(kv := t.kv + news,
       revisions := if keep && scope.Some? then t.revisions + Rows(t.kv, news, scope.value) else t.revisions)
  }

  /** The log rows of the keys whose value changes. */
  function Rows(kv: Store, news: Store, n: nat): map<(string, nat), Json> {
    var changed := set k | k in news && !(k in kv && kv[k] == news[k]) :: (k, n);
    map p | p in changed :: news[p.0]
  }

  lemma RowsAt(kv: Store, news: Store, n: nat, k: string, m: nat)
    ensures (k, m) in Rows(kv, news, n) <==> m == n && k in news && !(k in kv && kv[k] == news[k])
    ensures (k, m) in Rows(kv, news, n) ==> Rows(kv, news, n)[(k, m)] == news[k]
  {
  }

  function Prefixed(mapping: Store, prefix: string): Store {
    var keys := set x | x in mapping :: prefix + x;
    assert forall k :: k in keys ==> |prefix| <= |k| && k[|prefix|..] in mapping by {
      forall k | k in keys ensures |prefix| <= |k| && k[|prefix|..] in mapping {
        var x :| x in mapping && k == prefix + x;
        assert k[|prefix|..] == x;
      }
    }
    map k | k in keys :: mapping[k[|prefix|..]]
  }

  lemma PrefixedAt(mapping: Store, prefix: string, x: string)
    ensures prefix + x in Prefixed(mapping, prefix) <==> x in mapping
    ensures x in mapping ==> Prefixed(mapping, prefix)[prefix + x] == mapping[x]
  {
  }

  lemma PrefixedHasPrefix(mapping: Store, prefix: string, k: string)
    requires k in Prefixed(mapping, prefix)
    ensures prefix <= k && k == prefix + k[|prefix|..]
  {
  }

  // ---------------------------------------------------------------- scopes and runs

  function PrefixAll(keys: seq<string>, prefix: string): (r: seq<string>)
    ensures |r| == |keys| && forall i :: 0 <= i < |keys| ==> r[i] == prefix + keys[i]
  {
    seq(|keys|, i requires 0 <= i < |keys| => prefix + keys[i])
  }

  /** The keys that a list of names under a prefix stands for, as many as there are names. */
  lemma PrefixAllIs(names: seq<string>, prefix: string)
    ensures forall n :: n in names ==> prefix + n in PrefixAll(names, prefix)
    ensures forall k :: k in PrefixAll(names, prefix) ==> prefix <= k && k[|prefix|..] in names
    ensures NoDuplicates(PrefixAll(names, prefix)) <==> NoDuplicates(names)
  {
    var keys := PrefixAll(names, prefix);
    forall n | n in names ensures prefix + n in keys {
      var i :| 0 <= i < |names| && names[i] == n;
      assert keys[i] == prefix + n;
    }
    forall i | 0 <= i < |keys| ensures prefix <= keys[i] && keys[i][|prefix|..] == names[i] {
    }
  }

  /** `unsetrange` with a list of keys: every key of the list is logged, stored or not, once any row went. */
  function UnsetKeysTables(t: Tables, keep: bool, scope: Option<nat>, keys: seq<string>): Tables {
    t.(kv := map k | k in t.kv && k !in keys :: t.kv[k],
       revisions := if keep && scope.Some? && (exists k :: k in keys && k in t.kv)
                       && !UnsetKeysFails(t, keep, scope, keys)
                    then t.revisions + map k | k in keys :: (k, scope.value) := DELETED
                    else t.revisions)
  }

  predicate UnsetKeysFails(t: Tables, keep: bool, scope: Option<nat>, keys: seq<string>) {
    && keep && scope.Some? && (exists k :: k in keys && k in t.kv)
    && (!NoDuplicates(keys) || exists k :: k in keys && (k, scope.value) in t.revisions)
  }

  /** Removing listed keys removes just these; it logs each of them, once, when any was stored, and
      fails with nothing logged when one is listed twice or has a row under this version. */
  lemma UnsetKeysIsExact(t: Tables, keep: bool, scope: Option<nat>, keys: seq<string>)
    ensures var t', fails := UnsetKeysTables(t, keep, scope, keys), UnsetKeysFails(t, keep, scope, keys);
            && (forall k :: k in t'.kv <==> k in t.kv && k !in keys)
            && (forall k :: k in t'.kv ==> t'.kv[k] == t.kv[k])
            && (fails ==> t'.revisions == t.revisions)
            && (forall p :: p in t.revisions ==> p in t'.revisions && t'.revisions[p] == t.revisions[p])
            && (forall p :: p in t'.revisions && p !in t.revisions ==> t'.revisions[p] == DELETED)
            && (keep && scope.Some? && t'.kv != t.kv && !fails
                ==> forall k :: (k, scope.value) in t'.revisions <==> (k, scope.value) in t.revisions || k in keys)
  {
    var t' := UnsetKeysTables(t, keep, scope, keys);
    if forall k :: k in keys ==> k !in t.kv {
      assert t'.kv == t.kv;
    }
  }

  /** The same in terms of names and prefix: which keys go, */
  lemma UnsetKeysGone(t: Tables, keep: bool, scope: Option<nat>, names: seq<string>, prefix: string)
    ensures var t' := UnsetKeysTables(t, keep, scope, PrefixAll(names, prefix));
            && (forall n :: n in names ==> prefix + n !in t'.kv)
            && (forall k :: k in t'.kv ==> k in t.kv && t'.kv[k] == t.kv[k])
            && (forall k :: k in t.kv && k !in t'.kv ==> prefix <= k && k[|prefix|..] in names)
            && t'.hooks == t.hooks && t'.lastVersion == t.lastVersion
  {
    PrefixAllIs(names, prefix);
  }

  /** there is something to log exactly when one of them was stored, and logging fails exactly when a name
      is listed twice or has a row, */
  lemma UnsetKeysFailing(t: Tables, keep: bool, scope: Option<nat>, names: seq<string>, prefix: string)
    ensures UnsetKeysFails(t, keep, scope, PrefixAll(names, prefix)) <==>
            && keep && scope.Some? && (exists n :: n in names && prefix + n in t.kv)
            && ((exists i, j :: 0 <= i < j < |names| && names[i] == names[j])
                || exists n :: n in names && (prefix + n, scope.value) in t.revisions)
  {
    PrefixAllIs(names, prefix);
    ListedMeans(t.kv.Keys, names, prefix);
    if scope.Some? {
      ListedMeans(KeysAt(t.revisions, scope.value), names, prefix);
    }
    assert NoDuplicates(names) <==> !exists i, j :: 0 <= i < j < |names| && names[i] == names[j];
  }

  /** and which rows are logged. */
  lemma UnsetKeysRows(t: Tables, keep: bool, scope: Option<nat>, names: seq<string>, prefix: string)
    ensures var keys := PrefixAll(names, prefix);
            var t', fails := UnsetKeysTables(t, keep, scope, keys), UnsetKeysFails(t, keep, scope, keys);
            if fails || !(keep && scope.Some? && exists n :: n in names && prefix + n in t.kv)
            then t'.revisions == t.revisions
            else
              && (forall n :: n in names ==> (prefix + n, scope.value) in t'.revisions
                                             && t'.revisions[(prefix + n, scope.value)] == DELETED)
              && (forall p :: p in t.revisions ==> p in t'.revisions && t'.revisions[p] == t.revisions[p])
              && (forall p :: p in t'.revisions && p !in t.revisions
                              ==> p.1 == scope.value && prefix <= p.0 && p.0[|prefix|..] in names)
  {
    PrefixAllIs(names, prefix);
    ListedMeans(t.kv.Keys, names, prefix);
  }

  function KeysAt(revisions: map<(string, nat), Json>, n: nat): (keys: set<string>)
    ensures forall k :: k in keys <==> (k, n) in revisions
  {
    var keys := set p | p in revisions && p.1 == n :: p.0;
    assert forall k :: (k, n) in revisions ==> (k, n).0 in keys;
    keys
  }

  lemma ListedMeans(within: set<string>, names: seq<string>, prefix: string)
    ensures (exists k :: k in PrefixAll(names, prefix) && k in within)
            <==> exists n :: n in names && prefix + n in within
  {
    PrefixAllIs(names, prefix);
    if k :| k in PrefixAll(names, prefix) && k in within {
      assert k == prefix + k[|prefix|..];
    }
  }

  /** `UnsetAll` is `unsetrange` with a list of keys, `Save` a call of `flush` inside a scope. */
  datatype Op =
    | Set(key: string, value: Json)
    | Unset(key: string)
    | Update(mapping: Store, prefix: string)
    | UnsetAll(names: seq<string>, prefix: string)
    | Save

  function OpTables(t: Tables, keep: bool, scope: Option<nat>, op: Op): Tables {
    match op
    case Set(k, v) => SetTables(t, keep, scope, k, v)
    case Unset(k) => UnsetTables(t, keep, scope, k)
    case Update(m, p) => UpdateTables(t, keep, scope, m, p)
    case UnsetAll(names, p) => UnsetKeysTables(t, keep, scope, PrefixAll(names, p))
    case Save => t
  }

  predicate OpFails(t: Tables, keep: bool, scope: Option<nat>, op: Op) {
    match op
    case Unset(k) => UnsetFails(t, keep, scope, k)
    case UnsetAll(names, p) => UnsetKeysFails(t, keep, scope, PrefixAll(names, p))
    case _ => false
  }

  /** The tables the connection sees after the operations, or the error that stopped them. */
  function OpsTables(t: Tables, keep: bool, scope: Option<nat>, ops: seq<Op>): Result<Tables, Error> {
    if ops == [] then Ok(t)
    else
      var before := OpsTables(t, keep, scope, ops[..|ops| - 1]);
      var last := ops[|ops| - 1];
      if before.Raise? then before
      else if OpFails(before.value, keep, scope, last) then Raise(IntegrityError)
      else Ok(OpTables(before.value, keep, scope, last))
  }

  /** Operations take effect in their order, a later one over an earlier, and none behind an error. */
  lemma LaterOpWins(t: Tables, keep: bool, scope: Option<nat>, ops: seq<Op>, key: string, value: Json)
    ensures var before, after := OpsTables(t, keep, scope, ops), OpsTables(t, keep, scope, ops + [Set(key, value)]);
            if before.Raise? then after == before
            else after.Ok? && after.value.kv == before.value.kv[key := value]
  {
    assert (ops + [Set(key, value)])[..|ops|] == ops;
  }

  /** What a rollback goes back to after the operations: the tables as the last `flush` that was reached
      found them. */
  function SavedAfter(t: Tables, saved: Tables, keep: bool, scope: Option<nat>, ops: seq<Op>): Tables {
    if ops == [] then saved
    else
      var before := OpsTables(t, keep, scope, ops[..|ops| - 1]);
      if before.Ok? && ops[|ops| - 1].Save? then before.value
      else SavedAfter(t, saved, keep, scope, ops[..|ops| - 1])
  }

  /** Some `flush` among the operations was reached. */
  predicate Saves(t: Tables, keep: bool, scope: Option<nat>, ops: seq<Op>) {
    ops != [] &&
    var rest := ops[..|ops| - 1];
    Saves(t, keep, scope, rest) || (ops[|ops| - 1].Save? && OpsTables(t, keep, scope, rest).Ok?)
  }

  lemma {:induction false} SavedIsReached(t: Tables, saved: Tables, keep: bool, scope: Option<nat>, ops: seq<Op>)
    ensures if Saves(t, keep, scope, ops)
            then exists i :: 0 <= i <= |ops|
                             && OpsTables(t, keep, scope, ops[..i]) == Ok(SavedAfter(t, saved, keep, scope, ops))
            else SavedAfter(t, saved, keep, scope, ops) == saved
  {
    if ops != [] {
      var rest := ops[..|ops| - 1];
      SavedIsReached(t, saved, keep, scope, rest);
      assert forall i :: 0 <= i <= |rest| ==> ops[..i] == rest[..i];
      assert rest[..|rest|] == rest;
    }
  }

  /** Outside a scope, or without revisions, no operation fails or touches the log; inside, none touches
      the log of any other version. */
  lemma OnlyScopesLog(t: Tables, keep: bool, scope: Option<nat>, op: Op, p: (string, nat))
    ensures !keep || scope.None?
            ==> !OpFails(t, keep, scope, op) && OpTables(t, keep, scope, op).revisions == t.revisions
    ensures scope != Some(p.1) ==> (p in OpTables(t, keep, scope, op).revisions <==> p in t.revisions)
    ensures scope != Some(p.1) && p in t.revisions ==> OpTables(t, keep, scope, op).revisions[p] == t.revisions[p]
    ensures OpTables(t, keep, scope, op).hooks == t.hooks && OpTables(t, keep, scope, op).lastVersion == t.lastVersion
  {
  }

  function OpenScope(t: Tables, name: string): Tables {
    t.(hooks := t.hooks[t.lastVersion + 1 := name], lastVersion := t.lastVersion + 1)
  }

  /** What the connection sees, and what a rollback goes back to. */
  datatype Disk = Disk(working: Tables, saved: Tables)

  /** A hook scope: its body performs the operations and perhaps raises behind them. */
  datatype Scope = Scope(name: string, ops: seq<Op>, bodyFails: bool)

  /** Committed when the body ran to the end without an error, rolled back to the last commit otherwise. */
  function ScopeDisk(d: Disk, keep: bool, scope: Scope): Disk {
    var begun := OpenScope(d.working, scope.name);
    var done := OpsTables(begun, keep, Some(begun.lastVersion), scope.ops);
    var last := if done.Ok? && !scope.bodyFails then done.value
                else SavedAfter(begun, d.saved, keep, Some(begun.lastVersion), scope.ops);
    Disk(last, last)
  }

  function ScopeTables(t: Tables, keep: bool, scope: Scope): Tables {
    ScopeDisk(Disk(t, t), keep, scope).saved
  }

  /** Something of the scope is committed: all of it, or what came before a `flush` of its own. */
  predicate ScopeCommits(t: Tables, keep: bool, scope: Scope) {
    var begun := OpenScope(t, scope.name);
    || (OpsTables(begun, keep, Some(begun.lastVersion), scope.ops).Ok? && !scope.bodyFails)
    || Saves(begun, keep, Some(begun.lastVersion), scope.ops)
  }

  function RunTables(scopes: seq<Scope>): Tables {
    if scopes == [] then EmptyTables()
    else ScopeTables(RunTables(scopes[..|scopes| - 1]), true, scopes[|scopes| - 1])
  }

  /** The simplest run: one scope that sets one key. */
  lemma OneSet(key: string, value: Json)
    ensures RunTables([Scope("h", [Set(key, value)], false)]) ==
            Tables(map[key := value], map[(key, 1) := value], map[1 := "h"], 1)
  {
    var scope := Scope("h", [Set(key, value)], false);
    assert [scope][..0] == [] && scope.ops[..0] == [];
    var begun := OpenScope(EmptyTables(), "h");
    assert OpsTables(begun, true, Some(1), []) == Ok(begun);
    var done := SetTables(begun, true, Some(1), key, value);
    assert OpsTables(begun, true, Some(1), scope.ops) == Ok(done);
    assert RunTables([scope]) == ScopeTables(EmptyTables(), true, scope) == done;
  }

  // ---------------------------------------------------------------- reading the log

  /** The newest row of a key among the versions up to `n`. */
  function NewestRow(revisions: map<(string, nat), Json>, key: string, n: nat): Option<Json> {
    if (key, n) in revisions then Some(revisions[(key, n)])
    else if n == 0 then None
    else NewestRow(revisions, key, n - 1)
  }

  /** The log up to version `n` tells the store `kv`: a stored key's newest row is its value, and a
      key that is not stored has no row or ends in the deletion marker. */
  ghost predicate Tells(revisions: map<(string, nat), Json>, n: nat, kv: Store) {
    forall k :: if k in kv then NewestRow(revisions, k, n) == Some(kv[k])
                else NewestRow(revisions, k, n) in {None, Some(DELETED)}
  }

  /** No row is newer than the last version, and every row's version names a recorded hook. */
  ghost predicate RowsSound(t: Tables) {
    && (forall k, r :: (k, r) in t.revisions ==> 0 < r <= t.lastVersion)
    && (forall r :: 0 < r <= t.lastVersion ==> r in t.hooks)
    && (forall r :: r in t.hooks ==> 0 < r <= t.lastVersion)
  }

  /** A sound log that tells the store it belongs to. */
  ghost predicate LogSound(t: Tables) {
    RowsSound(t) && Tells(t.revisions, t.lastVersion, t.kv)
  }

  lemma {:induction false} NewestIgnoresOthers(a: map<(string, nat), Json>, b: map<(string, nat), Json>,
                                               key: string, n: nat)
    requires forall r: nat :: r <= n ==> ((key, r) in a <==> (key, r) in b)
    requires forall r: nat :: r <= n && (key, r) in a ==> a[(key, r)] == b[(key, r)]
    ensures NewestRow(a, key, n) == NewestRow(b, key, n)
    decreases n
  {
    if (key, n) !in a && n > 0 {
      NewestIgnoresOthers(a, b, key, n - 1);
    }
  }

  /** The rows of version `n` are the changes of the scope that ran under it. */
  ghost predicate OnlyVersion(a: map<(string, nat), Json>, b: map<(string, nat), Json>, n: nat) {
    forall k: string, r: nat :: r != n ==>
      ((k, r) in a <==> (k, r) in b) && ((k, r) in a ==> a[(k, r)] == b[(k, r)])
  }

  predicate Differs(a: Store, b: Store, key: string) {
    (key in a) != (key in b) || (key in a && a[key] != b[key])
  }

  /** The operation marks the key as removed: it is one of a list of which something was stored. */
  predicate Marks(t: Tables, op: Op, key: string) {
    && op.UnsetAll? && key in PrefixAll(op.names, op.prefix)
    && exists k :: k in PrefixAll(op.names, op.prefix) && k in t.kv
  }

  /** An operation under version `n` leaves one row for every key it changes, at most a new marker for a
      key that was not stored anyway, and no other row moves. */
  ghost predicate Logged(t: Tables, t': Tables, n: nat) {
    && t'.lastVersion == t.lastVersion && t'.hooks == t.hooks
    && OnlyVersion(t.revisions, t'.revisions, n)
    && forall k :: if Differs(t.kv, t'.kv, k)
                   then (k, n) in t'.revisions
                        && t'.revisions[(k, n)] == if k in t'.kv then t'.kv[k] else DELETED
                   else if (k, n) in t.revisions
                   then (k, n) in t'.revisions && t'.revisions[(k, n)] == t.revisions[(k, n)]
                   else (k, n) in t'.revisions ==> k !in t.kv && t'.revisions[(k, n)] == DELETED
  }

  /** The rows of version `n` after an operation are those before it and those of the keys it changed or marked. */
  ghost predicate RowsAre(t: Tables, t': Tables, n: nat, marked: set<string>) {
    forall k :: (k, n) in t'.revisions <==> (k, n) in t.revisions || Differs(t.kv, t'.kv, k) || k in marked
  }

  function MarkedBy(t: Tables, op: Op): (keys: set<string>)
    ensures forall k :: k in keys <==> Marks(t, op, k)
  {
    if op.UnsetAll? then set k | k in PrefixAll(op.names, op.prefix) && Marks(t, op, k) else {}
  }

  lemma OpIsLogged(t: Tables, n: nat, op: Op)
    requires !OpFails(t, true, Some(n), op)
    ensures Logged(t, OpTables(t, true, Some(n), op), n)
    ensures RowsAre(t, OpTables(t, true, Some(n), op), n, MarkedBy(t, op))
  {
    match op
    case Set(k, v) => SetIsLogged(t, n, k, v);
    case Unset(k) => UnsetIsLogged(t, n, k);
    case Update(m, p) => StoredIsLogged(t, n, Prefixed(m, p));
    case UnsetAll(names, p) =>
      KeysAreLogged(t, n, PrefixAll(names, p));
      assert forall k :: Marks(t, op, k) <==> Listed(t, PrefixAll(names, p), k);
    case Save =>
  }

  lemma SetIsLogged(t: Tables, n: nat, key: string, value: Json)
    ensures Logged(t, SetTables(t, true, Some(n), key, value), n)
    ensures RowsAre(t, SetTables(t, true, Some(n), key, value), n, {})
  {
  }

  lemma UnsetIsLogged(t: Tables, n: nat, key: string)
    requires !UnsetFails(t, true, Some(n), key)
    ensures Logged(t, UnsetTables(t, true, Some(n), key), n)
    ensures RowsAre(t, UnsetTables(t, true, Some(n), key), n, {})
  {
  }

  lemma StoredIsLogged(t: Tables, n: nat, news: Store)
    ensures Logged(t, Stored(t, true, Some(n), news), n)
    ensures RowsAre(t, Stored(t, true, Some(n), news), n, {})
  {
  }

  predicate Listed(t: Tables, keys: seq<string>, key: string) {
    key in keys && exists k :: k in keys && k in t.kv
  }

  lemma KeysAreLogged(t: Tables, n: nat, keys: seq<string>)
    requires !UnsetKeysFails(t, true, Some(n), keys)
    ensures Logged(t, UnsetKeysTables(t, true, Some(n), keys), n)
    ensures forall k :: (k, n) in UnsetKeysTables(t, true, Some(n), keys).revisions
                        <==> (k, n) in t.revisions || Listed(t, keys, k)
    ensures forall k :: Differs(t.kv, UnsetKeysTables(t, true, Some(n), keys).kv, k) ==> Listed(t, keys, k)
  {
    var t' := UnsetKeysTables(t, true, Some(n), keys);
    UnsetKeysIsExact(t, true, Some(n), keys);
    if forall k :: k in keys ==> k !in t.kv {
      assert t'.kv == t.kv;
    } else {
      var k :| k in keys && k in t.kv;
      assert k !in t'.kv;
    }
  }

  lemma LoggedKeepsLog(t: Tables, t': Tables, n: nat)
    requires n > 0 && n == t.lastVersion && RowsSound(t) && Tells(t.revisions, n, t.kv)
    requires Logged(t, t', n)
    ensures RowsSound(t') && Tells(t'.revisions, n, t'.kv)
  {
    forall k ensures if k in t'.kv then NewestRow(t'.revisions, k, n) == Some(t'.kv[k])
                     else NewestRow(t'.revisions, k, n) in {None, Some(DELETED)}
    {
      if !Differs(t.kv, t'.kv, k) && ((k, n) in t.revisions || (k, n) !in t'.revisions) {
        NewestIgnoresOthers(t.revisions, t'.revisions, k, n);
      }
    }
  }
}
