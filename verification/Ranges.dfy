/** Groups of keys: prefix scans, bulk updates and removals, and the difference between a stored
    range and a mapping. */
module Ranges {
  import opened Wrappers
  import opened LikePatterns
  import opened Revisions

  /** The rows a scan returns, under their full keys. */
  function Scanned(kv: Store, prefix: string): Store {
    map k | k in kv && InScan(prefix, k) :: kv[k]
  }

  /** The part of the store under a prefix, keys stripped of it. */
  function RangeOf(kv: Store, prefix: string): (r: Store)
    ensures forall x :: x in r <==> prefix + x in kv
    ensures forall x :: x in r ==> r[x] == kv[prefix + x]
  {
    var names := set k | k in kv && prefix <= k :: k[|prefix|..];
    assert forall x :: x in names ==> prefix + x in kv by {
      forall x | x in names ensures prefix + x in kv {
        var k :| k in kv && prefix <= k && x == k[|prefix|..];
        assert k == prefix + x;
      }
    }
    assert forall x :: prefix + x in kv ==> (prefix + x)[|prefix|..] == x;
    map x | x in names :: kv[prefix + x]
  }

  /** No stored key is caught by the scan without having the prefix. For a prefix without wildcards:
      no stored key differs from it in letter case only. */
  ghost predicate Distinct(kv: Store, prefix: string) {
    forall k :: k in kv && InScan(prefix, k) ==> prefix <= k
  }

  lemma DistinctByCase(kv: Store, prefix: string)
    requires WildcardFree(prefix)
    ensures Distinct(kv, prefix)
            <==> forall k :: k in kv && |prefix| <= |k| && FoldAll(prefix) == FoldAll(k[..|prefix|]) ==> prefix <= k
  {
    forall k ensures InScan(prefix, k) <==> |prefix| <= |k| && FoldAll(prefix) == FoldAll(k[..|prefix|]) {
      ScanIsFoldedPrefix(prefix, k);
    }
  }

  /** Python's `k[n:]`. */
  function Strip(k: string, n: nat): string {
    if n <= |k| then k[n..] else ""
  }

  /** `r` is a dictionary made from the scanned rows with their keys stripped; where two rows lose
      their difference with the prefix, one of them wins. */
  ghost predicate StrippedScan(kv: Store, prefix: string, r: Store) {
    && (forall k :: k in Scanned(kv, prefix) ==> Strip(k, |prefix|) in r)
    && (forall x :: x in r ==> exists k :: k in Scanned(kv, prefix) && Strip(k, |prefix|) == x && kv[k] == r[x])
  }

  /** What the plain answer holds: the rows whose keys the pattern catches. */
  lemma ScannedMeans(kv: Store, prefix: string, k: string)
    ensures k in Scanned(kv, prefix) <==> k in kv && InScan(prefix, k)
    ensures k in Scanned(kv, prefix) ==> Scanned(kv, prefix)[k] == kv[k]
  {
  }

  /** What the stripped answer holds: these rows under what is left of their keys behind as many
      characters as the prefix has, and nothing else. */
  lemma StrippedMeans(kv: Store, prefix: string, r: Store)
    requires StrippedScan(kv, prefix, r)
    ensures forall k :: k in kv && InScan(prefix, k) ==> (if |prefix| <= |k| then k[|prefix|..] else "") in r
    ensures forall x :: x in r ==> exists k :: k in kv && InScan(prefix, k) && kv[k] == r[x]
                                               && x == if |prefix| <= |k| then k[|prefix|..] else ""
  {
    forall k | k in kv && InScan(prefix, k) ensures (if |prefix| <= |k| then k[|prefix|..] else "") in r {
      assert k in Scanned(kv, prefix);
    }
    forall x | x in r
      ensures exists k :: k in kv && InScan(prefix, k) && kv[k] == r[x]
                          && x == if |prefix| <= |k| then k[|prefix|..] else ""
    {
      var k :| k in Scanned(kv, prefix) && Strip(k, |prefix|) == x && kv[k] == r[x];
      assert k in kv && InScan(prefix, k);
    }
  }

  lemma StrippedScanIsRange(kv: Store, prefix: string, r: Store)
    requires Distinct(kv, prefix) && StrippedScan(kv, prefix, r)
    ensures r == RangeOf(kv, prefix)
  {
    var range := RangeOf(kv, prefix);
    forall x | x in r ensures x in range && r[x] == range[x] {
      var k :| k in Scanned(kv, prefix) && Strip(k, |prefix|) == x && kv[k] == r[x];
      assert k == prefix + x;
    }
    forall x | x in range ensures x in r {
      PrefixIsScanned(prefix, prefix + x);
      assert Strip(prefix + x, |prefix|) == x;
    }
  }

  // ---------------------------------------------------------------- bulk changes

  lemma UpdatedAt(t: Tables, keep: bool, scope: Option<nat>, mapping: Store, prefix: string, x: string)
    ensures var kv := UpdateTables(t, keep, scope, mapping, prefix).kv;
            && (prefix + x in kv <==> prefix + x in t.kv || x in mapping)
            && (prefix + x in kv ==> kv[prefix + x] == if x in mapping then mapping[x] else t.kv[prefix + x])
  {
    PrefixedAt(mapping, prefix, x);
  }

  /** Updating under a prefix and scanning it gives the old range overridden by the mapping, and no
      key outside the prefix changes. */
  lemma UpdateThenRange(t: Tables, keep: bool, scope: Option<nat>, mapping: Store, prefix: string)
    ensures var kv := UpdateTables(t, keep, scope, mapping, prefix).kv;
            && RangeOf(kv, prefix) == RangeOf(t.kv, prefix) + mapping
            && forall k :: !(prefix <= k) ==> (k in kv <==> k in t.kv) && (k in t.kv ==> kv[k] == t.kv[k])
  {
    var kv := UpdateTables(t, keep, scope, mapping, prefix).kv;
    var a, b := RangeOf(kv, prefix), RangeOf(t.kv, prefix) + mapping;
    forall x ensures x in a <==> x in b
             ensures x in a ==> a[x] == b[x]
    {
      UpdatedAt(t, keep, scope, mapping, prefix, x);
    }
    forall k | k in Prefixed(mapping, prefix) ensures prefix <= k {
      PrefixedHasPrefix(mapping, prefix, k);
    }
  }

  lemma UpdateKeepsDistinct(t: Tables, keep: bool, scope: Option<nat>, mapping: Store, prefix: string)
    requires Distinct(t.kv, prefix)
    ensures Distinct(UpdateTables(t, keep, scope, mapping, prefix).kv, prefix)
  {
  }

  lemma PrefixedStep(done: Store, prefix: string, key: string, value: Json)
    requires key !in done
    ensures prefix + key !in Prefixed(done, prefix)
    ensures Prefixed(done[key := value], prefix) == Prefixed(done, prefix)[prefix + key := value]
  {
  }

  /** One more key of the mapping. */
  lemma UpdateStep(t: Tables, keep: bool, scope: Option<nat>, done: Store, prefix: string, key: string, value: Json)
    requires key !in done
    ensures SetTables(UpdateTables(t, keep, scope, done, prefix), keep, scope, prefix + key, value)
            == UpdateTables(t, keep, scope, done[key := value], prefix)
  {
    PrefixedStep(done, prefix, key, value);
    StoreStep(t, keep, scope, Prefixed(done, prefix), prefix + key, value);
  }

  lemma StoreStep(t: Tables, keep: bool, scope: Option<nat>, news: Store, full: string, value: Json)
    requires full !in news
    ensures SetTables(Stored(t, keep, scope, news), keep, scope, full, value)
            == Stored(t, keep, scope, news[full := value])
  {
    OneMore(t.kv, news, full, value);
    if keep && scope.Some? {
      RowsStep(t.kv, news, full, value, scope.value);
      OneMore(t.revisions, Rows(t.kv, news, scope.value), (full, scope.value), value);
    }
  }

  lemma OneMore<K, V>(m: map<K, V>, more: map<K, V>, k: K, v: V)
    ensures m + more[k := v] == (m + more)[k := v]
    ensures k !in more && k in m && m[k] == v ==> m + more[k := v] == m + more
    ensures k !in more ==> (k in m + more <==> k in m) && (k in m ==> (m + more)[k] == m[k])
  {
  }

  lemma RowsStep(kv: Store, news: Store, full: string, value: Json, n: nat)
    requires full !in news
    ensures Rows(kv, news[full := value], n) ==
            if full in kv && kv[full] == value then Rows(kv, news, n) else Rows(kv, news, n)[(full, n) := value]
  {
    var a := Rows(kv, news[full := value], n);
    var b := if full in kv && kv[full] == value then Rows(kv, news, n) else Rows(kv, news, n)[(full, n) := value];
    forall p: (string, nat) ensures p in a <==> p in b
                            ensures p in a ==> a[p] == b[p]
    {
      RowsAt(kv, news[full := value], n, p.0, p.1);
      RowsAt(kv, news, n, p.0, p.1);
      assert p == (p.0, p.1);
    }
  }

  /** `unsetrange` without a list: what the scan finds goes, and the pattern itself is logged as a key. */
  function UnsetPrefixTables(t: Tables, keep: bool, scope: Option<nat>, prefix: string): Tables {
    t.(kv := t.kv - Scanned(t.kv, prefix).Keys,
       revisions := if keep && scope.Some? && Scanned(t.kv, prefix) != map[]
                       && (prefix + "%", scope.value) !in t.revisions
                    then t.revisions[(prefix + "%", scope.value) := DELETED] else t.revisions)
  }

  predicate UnsetPrefixFails(t: Tables, keep: bool, scope: Option<nat>, prefix: string) {
    keep && scope.Some? && Scanned(t.kv, prefix) != map[] && (prefix + "%", scope.value) in t.revisions
  }

  /** Removing by prefix empties the range; it leaves every other key alone exactly when the scan
      catches nothing beyond the prefix. */
  lemma UnsetPrefixEmptiesRange(t: Tables, keep: bool, scope: Option<nat>, prefix: string)
    ensures var t' := UnsetPrefixTables(t, keep, scope, prefix);
            && RangeOf(t'.kv, prefix) == map[]
            && (Distinct(t.kv, prefix) <==> forall k :: k in t.kv && !(prefix <= k) ==> k in t'.kv)
            && forall k :: k in t'.kv ==> k in t.kv && t'.kv[k] == t.kv[k]
  {
    var t' := UnsetPrefixTables(t, keep, scope, prefix);
    forall x ensures x !in RangeOf(t'.kv, prefix) {
      PrefixIsScanned(prefix, prefix + x);
    }
    assert forall k :: k in t.kv ==> (k in t'.kv <==> !InScan(prefix, k));
  }

  /** Removing by prefix logs the pattern and not the keys, so the log still tells the store exactly when
      every key the scan caught is the pattern itself or held the text of the removal marker. */
  lemma PrefixRemovalKeepsLog(t: Tables, n: nat, prefix: string)
    requires LogSound(t) && n > 0 && n == t.lastVersion && !UnsetPrefixFails(t, true, Some(n), prefix)
    ensures LogSound(UnsetPrefixTables(t, true, Some(n), prefix))
            <==> forall k :: k in Scanned(t.kv, prefix) ==> k == prefix + "%" || t.kv[k] == DELETED
  {
    var t' := UnsetPrefixTables(t, true, Some(n), prefix);
    var pattern := prefix + "%";
    PrefixIsScanned(prefix, pattern);
    assert pattern !in t'.kv;
    forall k | k != pattern ensures NewestRow(t'.revisions, k, n) == NewestRow(t.revisions, k, n) {
      NewestIgnoresOthers(t.revisions, t'.revisions, k, n);
    }
    assert Scanned(t.kv, prefix) == map[] ==> t'.kv == t.kv && t'.revisions == t.revisions;
  }

  /** It does happen: after a value is stored in one scope and removed by prefix in the next, the log still
      gives the value. */
  lemma PrefixRemovalMisleads()
    ensures var t := OpenScope(RunTables([Scope("h", [Set("a", Null)], false)]), "i");
            var t' := UnsetPrefixTables(t, true, Some(2), "");
            t.lastVersion == 2 && t'.kv == map[] && NewestRow(t'.revisions, "a", 2) == Some(Null)
  {
    OneSet("a", Null);
    PrefixIsScanned("", "a");
    var t := OpenScope(RunTables([Scope("h", [Set("a", Null)], false)]), "i");
    assert Scanned(t.kv, "") == t.kv;
    assert "" + "%" == "%";
    var revisions := UnsetPrefixTables(t, true, Some(2), "").revisions;
    assert ("a", 2) !in revisions && revisions[("a", 1)] == Null;
  }

  // ---------------------------------------------------------------- deltas

  datatype Delta = Delta(previous: Json, current: Json)

  /** The value under a key, `None` when there is none. */
  function At(m: Store, k: string): Json {
    if k in m then m[k] else Null
  }

  /** The keys among `within` on which the two disagree, with both values. */
  function DeltaWithin(previous: Store, mapping: Store, within: set<string>): map<string, Delta> {
    map k | k in within && Differs(previous, mapping, k) :: Delta(At(previous, k), At(mapping, k))
  }

  function DeltaOf(previous: Store, mapping: Store): map<string, Delta> {
    DeltaWithin(previous, mapping, previous.Keys + mapping.Keys)
  }

  lemma DeltaStep(previous: Store, mapping: Store, within: set<string>, k: string)
    ensures DeltaWithin(previous, mapping, within + {k}) ==
            if Differs(previous, mapping, k)
            then DeltaWithin(previous, mapping, within)[k := Delta(At(previous, k), At(mapping, k))]
            else DeltaWithin(previous, mapping, within)
  {
  }

  /** Applying a delta: `None` as the current value removes the key. */
  function Patched(previous: Store, delta: map<string, Delta>): Store {
    map k | k in previous.Keys + delta.Keys && (k in delta ==> delta[k].current != Null)
      :: if k in delta then delta[k].current else previous[k]
  }

  /** Patching the stored range with the delta gives the mapping exactly when the mapping carries no
      `None` that is not already stored: such a value reads like a removal. */
  lemma PatchIsExact(previous: Store, mapping: Store)
    ensures Patched(previous, DeltaOf(previous, mapping)) == mapping
            <==> forall k :: k in mapping && mapping[k] == Null ==> k in previous && previous[k] == Null
  {
  }

  /** It does happen: a new key with the value `None` is lost by patching. */
  lemma NewNoneIsLost()
    ensures DeltaOf(map[], map["k" := Null]) == map["k" := Delta(Null, Null)]
    ensures Patched(map[], DeltaOf(map[], map["k" := Null])) == map[]
  {
    assert map["k" := Null].Keys == {"k"};
  }

  /** Once the mapping has been stored, what is left of its delta are the removed keys. */
  lemma DeltaAfterUpdate(t: Tables, keep: bool, scope: Option<nat>, mapping: Store, prefix: string)
    ensures var range := RangeOf(t.kv, prefix);
            var left := DeltaOf(RangeOf(UpdateTables(t, keep, scope, mapping, prefix).kv, prefix), mapping);
            && left.Keys == range.Keys - mapping.Keys
            && forall k :: k in left ==> left[k] == Delta(range[k], Null)
  {
    UpdateThenRange(t, keep, scope, mapping, prefix);
  }
}
