/** What the revision log is for: over any run of hook scopes it tells the store's present and every
    past committed content. */
module History {
  import opened Wrappers
  import opened Revisions

  // ---------------------------------------------------------------- one scope

  lemma {:induction false} OpsKeepLog(t: Tables, n: nat, ops: seq<Op>)
    requires n > 0 && n == t.lastVersion && RowsSound(t) && Tells(t.revisions, n, t.kv)
    requires OpsTables(t, true, Some(n), ops).Ok?
    ensures var t' := OpsTables(t, true, Some(n), ops).value;
            && t'.lastVersion == n && t'.hooks == t.hooks && RowsSound(t')
            && OnlyVersion(t.revisions, t'.revisions, n) && Tells(t'.revisions, n, t'.kv)
    decreases |ops|
  {
    if ops != [] {
      OpsKeepLog(t, n, ops[..|ops| - 1]);
      var before := OpsTables(t, true, Some(n), ops[..|ops| - 1]).value;
      OpIsLogged(before, n, ops[|ops| - 1]);
      LoggedKeepsLog(before, OpTables(before, true, Some(n), ops[|ops| - 1]), n);
    }
  }

  /** Opening a scope writes no row, so the log says the same one version later. */
  lemma OpenKeepsLog(t: Tables, name: string)
    requires LogSound(t)
    ensures LogSound(OpenScope(t, name))
  {
  }

  /** A scope that commits anything extends the log under a version of its own and leaves older rows
      alone; one that commits nothing goes back to the last commit. This holds for any two copies, also
      when the scope is opened over changes that are not committed yet. */
  lemma ScopeKeepsLog(d: Disk, scope: Scope)
    requires LogSound(d.working) && LogSound(d.saved)
    ensures var d' := ScopeDisk(d, true, scope);
            && d'.working == d'.saved && LogSound(d'.saved)
            && (ScopeCommits(d.working, true, scope) ==>
                  && d'.saved.lastVersion == d.working.lastVersion + 1
                  && OnlyVersion(d.working.revisions, d'.saved.revisions, d'.saved.lastVersion))
            && (!ScopeCommits(d.working, true, scope) ==> d'.saved == d.saved)
  {
    OpenKeepsLog(d.working, scope.name);
    var begun := OpenScope(d.working, scope.name);
    var n := begun.lastVersion;
    if OpsTables(begun, true, Some(n), scope.ops).Ok? && !scope.bodyFails {
      OpsKeepLog(begun, n, scope.ops);
    } else {
      SavedIsReached(begun, d.saved, true, Some(n), scope.ops);
      if Saves(begun, true, Some(n), scope.ops) {
        var last := SavedAfter(begun, d.saved, true, Some(n), scope.ops);
        var i :| 0 <= i <= |scope.ops| && OpsTables(begun, true, Some(n), scope.ops[..i]) == Ok(last);
        OpsKeepLog(begun, n, scope.ops[..i]);
      }
    }
  }

  // ---------------------------------------------------------------- all runs

  /** The content of the store at each commit, by version. */
  function CommitLog(scopes: seq<Scope>): map<nat, Store> {
    if scopes == [] then map[]
    else
      var init := scopes[..|scopes| - 1];
      if ScopeCommits(RunTables(init), true, scopes[|scopes| - 1])
      then CommitLog(init)[RunTables(scopes).lastVersion := RunTables(scopes).kv]
      else CommitLog(init)
  }

  lemma {:induction false} RunKeepsLog(scopes: seq<Scope>)
    ensures var t := RunTables(scopes);
            && LogSound(t)
            && (forall n :: n in CommitLog(scopes) <==> 0 < n <= t.lastVersion)
            && (forall n :: n in CommitLog(scopes) ==> Tells(t.revisions, n, CommitLog(scopes)[n]))
    decreases |scopes|
  {
    if scopes == [] {
      assert forall k :: NewestRow(map[], k, 0) == None;
    } else {
      var init := scopes[..|scopes| - 1];
      var t, t' := RunTables(init), RunTables(scopes);
      RunKeepsLog(init);
      ScopeKeepsLog(Disk(t, t), scopes[|scopes| - 1]);
      forall n | n in CommitLog(scopes) ensures Tells(t'.revisions, n, CommitLog(scopes)[n]) {
        if n in CommitLog(init) && t' != t {
          OlderRowsStay(t.revisions, t'.revisions, t'.lastVersion, n, CommitLog(init)[n]);
        }
      }
    }
  }

  /** Without revisions no run of operations fails on the log or writes to it. */
  lemma {:induction false} QuietOps(t: Tables, scope: Option<nat>, ops: seq<Op>)
    ensures OpsTables(t, false, scope, ops).Ok?
    ensures OpsTables(t, false, scope, ops).value.revisions == t.revisions
    decreases |ops|
  {
    if ops != [] {
      QuietOps(t, scope, ops[..|ops| - 1]);
      OnlyScopesLog(OpsTables(t, false, scope, ops[..|ops| - 1]).value, false, scope, ops[|ops| - 1], ("", 0));
    }
  }

  lemma OlderRowsStay(a: map<(string, nat), Json>, b: map<(string, nat), Json>, newer: nat, n: nat, kv: Store)
    requires OnlyVersion(a, b, newer) && n < newer && Tells(a, n, kv)
    ensures Tells(b, n, kv)
  {
    forall k ensures NewestRow(a, k, n) == NewestRow(b, k, n) {
      NewestIgnoresOthers(a, b, k, n);
    }
  }

  /** The store rebuilt from the log alone, as of version `n`. */
  function Replayed(revisions: map<(string, nat), Json>, n: nat): Store {
    map k | k in (set p | p in revisions :: p.0)
            && NewestRow(revisions, k, n).Some? && NewestRow(revisions, k, n).value != DELETED
      :: NewestRow(revisions, k, n).value
  }

  lemma {:induction false} NewestRowIsRow(revisions: map<(string, nat), Json>, key: string, n: nat)
    requires NewestRow(revisions, key, n).Some?
    ensures key in (set p | p in revisions :: p.0)
    decreases n
  {
    if (key, n) in revisions {
      assert (key, n).0 == key;
    } else {
      NewestRowIsRow(revisions, key, n - 1);
    }
  }

  /** A log that tells a store rebuilds it exactly when the store holds no text 'DELETED': such a
      value cannot be told from a removal. */
  lemma ReplayIsExact(revisions: map<(string, nat), Json>, n: nat, kv: Store)
    requires Tells(revisions, n, kv)
    ensures Replayed(revisions, n) == kv <==> forall k :: k in kv ==> kv[k] != DELETED
  {
    var r := Replayed(revisions, n);
    forall k ensures k in r <==> k in kv && kv[k] != DELETED
             ensures k in r ==> k in kv && r[k] == kv[k]
    {
      if k in kv {
        NewestRowIsRow(revisions, k, n);
      }
    }
    if forall k :: k in kv ==> kv[k] != DELETED {
      assert r.Keys == kv.Keys;
    }
  }

  /** It does happen: one scope that stores the text 'DELETED' leaves a log that rebuilds an empty store. */
  lemma DeletedTextIsLost()
    ensures var t := RunTables([Scope("h", [Set("k", DELETED)], false)]);
            t.kv == map["k" := DELETED] && Replayed(t.revisions, t.lastVersion) == map[]
  {
    OneSet("k", DELETED);
    var t := RunTables([Scope("h", [Set("k", DELETED)], false)]);
    assert Replayed(t.revisions, 1) == map[];
  }

  /** Replaying the log of any run gives back the present store, and the store as it was at every
      commit, as long as no text 'DELETED' was stored then. */
  lemma HistoryReplays(scopes: seq<Scope>, n: nat)
    requires n in CommitLog(scopes)
    ensures Replayed(RunTables(scopes).revisions, n) == CommitLog(scopes)[n]
            <==> forall k :: k in CommitLog(scopes)[n] ==> CommitLog(scopes)[n][k] != DELETED
    ensures n == RunTables(scopes).lastVersion ==> CommitLog(scopes)[n] == RunTables(scopes).kv
  {
    RunKeepsLog(scopes);
    ReplayIsExact(RunTables(scopes).revisions, n, CommitLog(scopes)[n]);
    LastCommitIsPresent(scopes);
  }

  /** Scopes take effect in their order: the last one's value is there in the end, under a version and a name of
      its own, and everything else is as before. */
  lemma LaterScopeWins(scopes: seq<Scope>, name: string, key: string, value: Json)
    ensures var t, all := RunTables(scopes), scopes + [Scope(name, [Set(key, value)], false)];
            var t' := RunTables(all);
            && t'.kv == t.kv[key := value] && t'.lastVersion == t.lastVersion + 1
            && t'.hooks == t.hooks[t'.lastVersion := name]
            && CommitLog(all) == CommitLog(scopes)[t'.lastVersion := t.kv[key := value]]
  {
    var scope := Scope(name, [Set(key, value)], false);
    var begun := OpenScope(RunTables(scopes), name);
    assert (scopes + [scope])[..|scopes|] == scopes && scope.ops[..0] == [];
    assert OpsTables(begun, true, Some(begun.lastVersion), []) == Ok(begun);
    assert OpsTables(begun, true, Some(begun.lastVersion), scope.ops) ==
           Ok(SetTables(begun, true, Some(begun.lastVersion), key, value));
    assert key in begun.kv && begun.kv[key] == value ==> begun.kv == begun.kv[key := value];
  }

  lemma {:induction false} LastCommitIsPresent(scopes: seq<Scope>)
    ensures var t := RunTables(scopes);
            t.lastVersion in CommitLog(scopes) ==> CommitLog(scopes)[t.lastVersion] == t.kv
    decreases |scopes|
  {
    if scopes != [] {
      var t := RunTables(scopes[..|scopes| - 1]);
      LastCommitIsPresent(scopes[..|scopes| - 1]);
      RunKeepsLog(scopes[..|scopes| - 1]);
      ScopeKeepsLog(Disk(t, t), scopes[|scopes| - 1]);
    }
  }

  // ---------------------------------------------------------------- when a scope fails

  /** Some operation of the scope has changed what is stored under the key, or marked it as removed. */
  predicate Touched(t: Tables, n: nat, ops: seq<Op>, key: string) {
    ops != [] &&
    var before := OpsTables(t, true, Some(n), ops[..|ops| - 1]);
    var after := OpsTables(t, true, Some(n), ops);
    || Touched(t, n, ops[..|ops| - 1], key)
    || (before.Ok? && after.Ok?
        && (Differs(before.value.kv, after.value.kv, key) || Marks(before.value, ops[|ops| - 1], key)))
  }

  lemma {:induction false} RowIffTouched(t: Tables, n: nat, ops: seq<Op>, key: string)
    requires forall k :: (k, n) !in t.revisions
    requires OpsTables(t, true, Some(n), ops).Ok?
    ensures (key, n) in OpsTables(t, true, Some(n), ops).value.revisions <==> Touched(t, n, ops, key)
    decreases |ops|
  {
    if ops != [] {
      RowIffTouched(t, n, ops[..|ops| - 1], key);
      OpIsLogged(OpsTables(t, true, Some(n), ops[..|ops| - 1]).value, n, ops[|ops| - 1]);
    }
  }

  /** In a scope, removing a key is an error exactly when the key is stored and the same scope has
      already changed it or listed it among keys it removed; every other removal goes through. */
  lemma UnsetFailsIffTouched(t: Tables, name: string, ops: seq<Op>, key: string)
    requires RowsSound(t)
    requires OpsTables(OpenScope(t, name), true, Some(t.lastVersion + 1), ops).Ok?
    ensures var n := t.lastVersion + 1;
            var now := OpsTables(OpenScope(t, name), true, Some(n), ops).value;
            OpsTables(OpenScope(t, name), true, Some(n), ops + [Unset(key)]) == Raise(IntegrityError)
            <==> key in now.kv && Touched(OpenScope(t, name), n, ops, key)
  {
    var n := t.lastVersion + 1;
    assert (ops + [Unset(key)])[..|ops|] == ops;
    RowIffTouched(OpenScope(t, name), n, ops, key);
  }

  /** A value set and removed in one scope takes the whole scope back. */
  lemma SetThenUnsetRollsBack(t: Tables, name: string, key: string, value: Json)
    requires key in t.kv ==> t.kv[key] != value
    ensures ScopeTables(t, true, Scope(name, [Set(key, value), Unset(key)], false)) == t
  {
    var ops := [Set(key, value), Unset(key)];
    var n := t.lastVersion + 1;
    var begun := OpenScope(t, name);
    assert ops[..1] == [Set(key, value)] && ops[..1][..0] == [];
    assert OpsTables(begun, true, Some(n), ops[..1][..0]) == Ok(begun);
    assert OpsTables(begun, true, Some(n), ops[..1]) == Ok(SetTables(begun, true, Some(n), key, value));
    assert OpFails(SetTables(begun, true, Some(n), key, value), true, Some(n), ops[1]);
    assert SavedAfter(begun, t, true, Some(n), ops) == SavedAfter(begun, t, true, Some(n), ops[..1]) == t;
  }
}
