# Verified models of charm-helpers

charm-helpers is the library that Juju charms, short-lived hook programs on many units of a service,
are written with. This project models the parts of it whose correctness is not visible in any single
function, and proves what they are for.

**The lock coordinator.** Units ask for locks by publishing time-stamped requests on the peer relation;
the leader revokes grants that are out of date, gives each lock to the head of its queue and publishes
the grants; a unit that finds its own stamp granted is inside the lock until its hook ends. The model has
two levels. `Coordinator.Coordinator` is the class with its two dictionaries updated in place, method by method, for
any policy. `Protocol.System` is the distributed system around it: committed grants and requests, and one
open hook per unit with its own view. `Hooks.HookProcess` joins the two: it runs a whole hook process,
callbacks and answers included, and `Hooks.HookIsRun` proves that such a hook, if its clock gives new stamps, is a legal
run of protocol steps. `MutualExclusion` proves safety over all runs, `Answers` carries it over to what `acquire` tells
units, and `Fairness` shows that the queue is honoured, that waiting is bounded and that a waiting unit is served at last.

**The transactional store.** `Storage.Storage` keeps a working and a committed copy of the tables of the SQLite
file. `Revisions` and `History` show that over any run of hook scopes the revision log tells the present store and
every committed past one; `Ranges` and `LikePatterns` say what a prefix scan by SQL `LIKE` really is, and
what updates, removals and deltas by prefix come to.

**The hook runtime.** `RelationCache.HookCache` is the memo of hook-tool calls that is flushed by substring, and
`JsonText` the JSON text of a call that serves as its key. `Hooks.HookProcess` is the atstart and atexit machinery.

**Smaller cores.** `FstabText` and `Fstab` (parsing, printing and editing fstab), `CpuMasks` (CPU lists and bit
masks), `Migration` (once-only migration of settings to leadership storage), `PolicyFiles` (all-or-nothing
installation of policy overrides), `Overlay` (user overrides over defaults, by schema), `Restarts` (which services
restart after which files changed), `Timestamps` (stamps whose text sorts as their time).

## What the protocol assumes

These are the guards of `Protocol.Enabled` and the shape of its steps; nothing else is assumed.

- A hook starts by loading and handling, as a hook framework does when it runs the start callbacks; code outside such a
  framework has to call `handle` first (`charmhelpers/coordinator.py:266-271`). After that a hook may call `acquire`, `handle`
  and `grant` in any order, and ends by releasing and saving, or fails.

- What a hook writes becomes visible when it ends well, all at once, and not at all when it fails
  (`charmhelpers/context.py:117-122`). Its view does not change while it runs.
- A unit runs one hook at a time; a unit that has departed runs none; unit names are not used again.
- There is at most one leader, and leadership does not move while the old or the new leader is inside a hook.
- A leader's hook starts from the committed grants and from the committed requests of all units. Any other
  hook may see grants from any time in the past and anything at all about its peers; it sees its own
  committed requests.
- A unit never draws the same stamp twice for the same lock, and stamps are not empty.

`Fairness.BoundedWaiting` adds one more, as a premise of its own: stamps that other units draw while a request waits sort
after it. Safety and the absence of overtaking do not need clocks to agree.

## Where code and documentation disagree

The models follow the code. For each difference there is an exact condition and an input that shows it.

- `acquire` says it "returns True if the lock has been granted". A leader whose own recorded grant no longer
  matches its request is told True as well, until `handle` has run (`charmhelpers/coordinator.py:402-403`):
  exactly when is in `Coordinator.Coordinator.Acquire`, an instance in `Coordinator.StaleGrantIsBelieved`. With `handle` at the
  start of every hook it cannot happen: `Answers.AnswerIsInside`.
- `unset` removes a key "from the database entirely". In a scope that keeps revisions it raises, and the scope is rolled back,
  exactly when the key is stored and the same scope has changed it before: `History.UnsetFailsIffTouched`,
  `History.SetThenUnsetRollsBack`.
- `unsetrange` removes a range by prefix "entirely", but logs the pattern in place of the keys, so the log goes on telling
  them: `Ranges.PrefixRemovalKeepsLog`, `Ranges.PrefixRemovalMisleads`.
- A stored text `DELETED` cannot be told from a removal in the log: `History.ReplayIsExact`, `History.DeletedTextIsLost`.
- `getrange` promises "keys starting with a common prefix". Wildcards in the prefix and ASCII case widen the
  scan: `LikePatterns.ScanIsExact` (which builds the key), `Ranges.DistinctByCase`, `Ranges.UnsetPrefixEmptiesRange`.
- A new `None` in a mapping reads like a removal in `delta`: `Ranges.PatchIsExact`, `Ranges.NewNoneIsLost`.
- `add_entry` glues the new entry to a last line that has no newline: `FstabText.AddThenRemove`,
  `FstabText.AddedToComment`, `FstabText.SomeEntryIsLost`.
- The marker of a successful policy installation survives an archive that is refused at first look:
  `PolicyFiles.PolicyDirectory.Process`, `PolicyFiles.StaleMarker`.

- Blacklisted policy paths "should not be touched". One that lies in a directory goes with the directory, on success and
  on failure, exactly when that directory is not blacklisted itself: `PolicyFiles.SurvivesIff`,
  `PolicyFiles.NestedPathIsRemoved`.
- Peer settings are promised to be migrated. A full `leader_get` raises, and migrates nothing however often it is called, exactly
  when something is left to migrate and there is a value under the key `settings`, which `leader_set` takes for its own
  parameter: `Migration.PeerStorage.LeaderGetAll`, `Migration.RaisingReadsChangeNothing`, `Migration.SettingsKeyRaises`.

## Model

| member | source | states |
|---|---|---|
| LockTables.QueueMembers | charmhelpers/coordinator.py:405-415 | A unit is in the queue for a lock iff it asked for it and does not hold it. |
| LockTables.QueueHead | charmhelpers/coordinator.py:413-413 | The first of the sorted queue is the unit whose (stamp, name) is least among all requests. |
| LockTables.QueueIsOrdered | charmhelpers/coordinator.py:413-413 | The whole queue is in order of (stamp, name). |
| Lexicographic.LessIff | charmhelpers/coordinator.py:413-413 | A text sorts before another iff it is a proper beginning of it or has the smaller character where they first differ. |
| LockTables.SerialAdmits | charmhelpers/coordinator.py:586-586 | Serial admits a unit iff nobody holds the lock and its request is the least one. |
| LockTables.SerialStep | charmhelpers/coordinator.py:381-384 | Offering one lock to one requester, at any point of the walk over the dictionaries, records exactly that pair's win and nothing else. |
| LockTables.SerialAfterUnique | charmhelpers/coordinator.py:381-384 | The result of the walk is determined by the pairs visited: dictionary order cannot matter. |
| LockTables.SerialOutcome | charmhelpers/coordinator.py:358-384 | The table handling ends in exists: stale grants gone, others kept, every requested free lock with the least request. |
| LockTables.SerialOutcomeEntries | charmhelpers/coordinator.py:358-426 | After handling every grant equals its unit's request, valid grants are untouched, and if the grants were exclusive they still are. |
| LockTables.OutcomeHolder | charmhelpers/coordinator.py:381-426 | After handling every requested lock has a holder. |
| Coordinator.StrayRowIsHarmless | charmhelpers/coordinator.py:315-321 | The row misfiled under the lock's name changes no entry but the new request, so an outstanding stamp is kept, and puts no unit in any queue. |
| Coordinator.FilingAddsRows | charmhelpers/coordinator.py:315-321 | Filing a request adds no row but the unit's own and the misfiled one. |
| Coordinator.RequestKeepsCurrent | charmhelpers/coordinator.py:315-321 | Filing a request makes no grant stale and leaves no request with an empty stamp. |
| Coordinator.GrantKeepsCurrent | charmhelpers/coordinator.py:415-425 | Under any policy, granting makes no grant stale and alters no grant that was there. |
| Coordinator.ReleasedRow | charmhelpers/coordinator.py:552-563 | What is left after release: the unit's requests minus exactly those granted to it. |
| Coordinator.Coordinator.LoadState | charmhelpers/coordinator.py:466-494 | Grants are those in leadership storage. The unit's own requests are those it has published or, if it has published none or there is no peer relation, those of the local file; every peer's are what it has published; nobody else has any. |
| Coordinator.Coordinator.Granted | charmhelpers/coordinator.py:337-343 | True iff the unit has a request with a non-empty stamp and the recorded grant carries the same stamp. |
| Coordinator.Coordinator.Requested | charmhelpers/coordinator.py:345-347 | True iff the unit has a request for the lock. |
| Coordinator.Coordinator.HolderSet | charmhelpers/coordinator.py:397-401 | The loop collects exactly the units with a recorded grant. |
| Coordinator.Coordinator.WaitingUnits | charmhelpers/coordinator.py:405-413 | The loop and the sort give the queue: requesters that hold nothing, in order of (stamp, name). |
| Coordinator.Coordinator.Grant | charmhelpers/coordinator.py:386-426 | Only the leader, only for a unit that asked and has no grant, and only if the policy agrees is a grant added, with the stamp of the request; nothing else changes. The answer is True iff this is the leader and the unit has a grant, and with current grants never for a stale one. |
| Coordinator.Coordinator.FileRequest | charmhelpers/coordinator.py:315-321 | An outstanding request keeps its stamp; otherwise one is filed under the new stamp. |
| Coordinator.Coordinator.Acquire | charmhelpers/coordinator.py:300-335 | New tables in full; True without being inside the lock iff a leader's own recorded grant is stale; after handling, True iff granted. |
| Coordinator.StaleGrantIsBelieved | charmhelpers/coordinator.py:394-403 | A leader that has released and asks again before handling is told True though it is not granted: the state and the call that show it. |
| Coordinator.Coordinator.ClearReleased | charmhelpers/coordinator.py:364-379 | Exactly the grants that differ from their unit's current request are dropped. |
| Coordinator.Coordinator.Handle | charmhelpers/coordinator.py:358-384 | For any policy: stale grants go, valid ones stay, and then every request is offered to the policy once, in some order of the dictionary. For Serial the outcome is the one declared table, whatever that order. |
| Coordinator.Coordinator.ReleaseGranted | charmhelpers/coordinator.py:552-563 | The local unit's granted requests are removed; no other row changes. |
| MutualExclusion.StartIsFresh | charmhelpers/coordinator.py:466-494 | A hook starts with the unit's published requests; a leader's has exclusive grants that all match published requests and has lost none that did. |
| MutualExclusion.LeaderGrants | charmhelpers/coordinator.py:358-384 | In terms of what is published, handling yields exclusive grants that all match a published request and include every committed one that did. |
| MutualExclusion.AcquireEntries | charmhelpers/coordinator.py:300-335 | `acquire` changes at most the request filed and, in a leader's hook with the lock free, the grant given for it. |
| MutualExclusion.StepRegrants | charmhelpers/coordinator.py:358-426 | `handle` and `grant` called inside a hook leave every grant in place, give free locks only, and only to requests the hook knows. |
| MutualExclusion.StepKeepsTables | charmhelpers/coordinator.py:358-426 | No step leaves a stale grant in a leader's open hook, or lets it know a request that its unit has not published. |
| MutualExclusion.StepKeepsInv | charmhelpers/coordinator.py:300-563 | Every step, `handle` and `grant` inside a hook included, keeps the invariant: exclusive committed grants, a request that once differed from its grant never matches it again, stamps drawn once, only the leader's hook changes grants. |
| MutualExclusion.InsideIsBacked | charmhelpers/coordinator.py:337-343 | Whoever is inside a lock, even on an old view, is backed by the grant in force or is the leader itself. |
| MutualExclusion.MutualExclusion | charmhelpers/coordinator.py:566-586 | In every run no two units in open hooks have a view in which the same lock is granted to them, a leader's uncommitted self-grant included. |
| MutualExclusion.HandoverKeepsState | charmhelpers/coordinator.py:466-520 | After a hook has ended, any newly elected leader reloads exactly the published requests, keeps every committed grant still asked for and holds none that is not. |
| MutualExclusion.AcquireEnters | charmhelpers/coordinator.py:323-335 | `acquire` lets a unit in iff it was in already or it leads, the lock is free in its view and no known request is earlier. |
| MutualExclusion.SomeoneGetsIn | charmhelpers/coordinator.py:323-333 | A lone unit that is elected and asks is let in: the safety theorem is not empty. |
| Answers.AnswerIsInside | charmhelpers/coordinator.py:300-335 | In every reachable state `acquire` answers True iff the unit is then inside the lock. |
| Answers.InsideStays | charmhelpers/coordinator.py:337-343 | A unit that is inside stays inside until its hook ends, whatever any unit does. |
| Answers.AnswersExclude | charmhelpers/coordinator.py:300-335 | At no point of any run have two units both been told True for a lock in hooks that are still open. |
| Answers.SomeoneIsTold | charmhelpers/coordinator.py:323-333 | A lone unit that is elected and asks is told True: that theorem is not empty either. |
| Fairness.NewGrantIsHead | charmhelpers/coordinator.py:381-426 | Any new grant, by handling, by `grant` or by the leader's own acquire, goes to the least request its hook knows. |
| Fairness.RunKeepsSeen | charmhelpers/coordinator.py:315-321 | A waiting request keeps its stamp and its visibility to every later leader's hook. |
| Fairness.NoOvertaking | charmhelpers/coordinator.py:405-426 | From the moment every leader's hook sees a request until it is used up, a lock given to another unit was asked for earlier, over all runs. |
| Fairness.NoOvertakingInTime | charmhelpers/coordinator.py:595-605 | The same in terms of the clock times the stamps were made from. |
| Fairness.StepAddsNoRival | charmhelpers/coordinator.py:358-426 | No step adds a unit that may still be served before the waiting one. |
| Fairness.ReleaseRemovesRival | charmhelpers/coordinator.py:552-563 | A release by another unit takes that unit out of the set of rivals. |
| Fairness.DepartedRivalLeaves | charmhelpers/coordinator.py:364-367 | A rival that departs is one no more. |
| Fairness.FailedRivalLeaves | charmhelpers/coordinator.py:504-520 | A rival whose hook fails before its request was ever published is one no more. |
| Fairness.BoundedWaiting | charmhelpers/coordinator.py:358-384 | Over any run, the rivals that leave, which are at least the releases by others, plus the rivals left never exceed the rivals at the start. |
| Fairness.LockGoesToRival | charmhelpers/coordinator.py:381-426 | Once a leader's hook has started, the lock belongs to the waiting unit or to a rival: it is never left idle. |
| Fairness.ServedWhenAlone | charmhelpers/coordinator.py:381-426 | With no rival left, the next leader's hook grants the waiting request. |
| Fairness.ServedAtLast | charmhelpers/coordinator.py:358-426 | In any run with orderly stamps in which as many rivals leave as there were, none is left and the next leader's hook grants the waiting request. |
| Fairness.GrantLetsIn | charmhelpers/coordinator.py:337-343 | A committed grant lets its unit in at the start of its next hook that sees it. |
| Fairness.MatchStays | charmhelpers/coordinator.py:358-379 | A committed grant stays in force while its unit stands by its request. |
| Fairness.LeaderGetsIn | charmhelpers/coordinator.py:323-333 | A leader that waits itself is inside as soon as its hook has given it the lock. |
| Fairness.GetsInAtLast | charmhelpers/coordinator.py:300-426 | The whole way: the rivals leave, a leader's hook starts, does anything and ends well, anything happens in which the unit waits, and its next hook that sees the grants in force starts inside the lock. |
| Hooks.HookProcess.Call | charmhelpers/coordinator.py:273-298 | `initialize` takes effect once, loads the state and registers save before release; every other callback changes only what is its own. |
| Hooks.HookProcess.RunAtStart | charmhelpers/core/hookenv.py:1347-1352 | Start callbacks run in the order registered; afterwards the state is loaded and handled. |
| Hooks.HookProcess.Act | charmhelpers/coordinator.py:300-426 | What one action of the body, `acquire`, `handle` or `grant`, does and is told; with handled tables the answer is whether the unit is granted at that moment, and they stay handled. |
| Hooks.HookProcess.RunBody | charmhelpers/coordinator.py:300-335 | Every answer the body gets, action by action; after handling all of them are true. |
| Hooks.HookProcess.RunAtExit | charmhelpers/core/hookenv.py:1355-1361 | End callbacks run last registered first; what is written is the state after release. |
| Hooks.HookProcess.Execute | charmhelpers/core/hookenv.py:960-973 | A hook succeeds iff it is registered and returns or exits with zero; then the writes to leadership storage, peer relation and local file are those of load, handle, body, release and save; otherwise nothing is written and no end callback runs; either way the body is told the truth. |
| Hooks.ReleasePrecedesSave | charmhelpers/coordinator.py:289-298 | Whatever else is registered, release runs before save. |
| Hooks.HookIsRun | charmhelpers/coordinator.py:273-426 | With new stamps from the clock, a hook of the class is a legal run of the protocol's steps, which publishes all it asked for minus the locks it was inside, the same grants, and nothing when it fails. |
| Hooks.LoadedIsStamped | charmhelpers/coordinator.py:466-494 | In every reachable state a leader's hook starts from current grants and real stamps, which is what truthful answers need. |
| Timestamps.FormatOrder | charmhelpers/coordinator.py:595-605 | Stamp texts compare as the times do, and no two times share a text. |
| Timestamps.TicketOrder | charmhelpers/coordinator.py:405-413 | Sorting (stamp, unit) text pairs is sorting by time, ties by unit name. |
| Timestamps.ParseFormat | charmhelpers/coordinator.py:349-356 | A formatted stamp reads back as its time. |
| Timestamps.FormatNumbers | charmhelpers/coordinator.py:595-596 | Where each field and each separator stands in a stamp. |
| Timestamps.IsTimeIff | charmhelpers/coordinator.py:595-596 | Which fields make up a time: the days of the months are those of the calendar. |
| Timestamps.LeapIs | charmhelpers/coordinator.py:595-596 | Every fourth year is a leap year, of the full centuries every fourth one. |
| Timestamps.FormatParse | charmhelpers/coordinator.py:595-596 | Whatever reads as a stamp is the formatted form of the time read. |
| LikePatterns.ScanIsFoldedPrefix | charmhelpers/core/unitdata.py:220-221 | For a prefix free of wildcards the scan returns a key iff it has the prefix up to ASCII case. |
| LikePatterns.ScanIsExact | charmhelpers/core/unitdata.py:210-221 | Scanning is plain prefix filtering for all keys iff the prefix has neither wildcards nor letters. |
| LikePatterns.ScanIsBeginning | charmhelpers/core/unitdata.py:220-221 | For any prefix, wildcards included, a key is scanned iff some beginning of it matches the prefix. |
| LikePatterns.LikeIsPointwise | charmhelpers/core/unitdata.py:220-221 | Without `%` a pattern matches only texts of its own length, `_` standing for exactly one character. |
| LikePatterns.PercentIsAny | charmhelpers/core/unitdata.py:220-221 | `%` stands for any text, the empty one included. |
| LikePatterns.FoldIff | charmhelpers/core/unitdata.py:220-221 | Two characters match regardless of case iff they are the two cases of one ASCII letter. |
| Ranges.DistinctByCase | charmhelpers/core/unitdata.py:220-221 | For a wildcard-free prefix a store's scan is exact iff no stored key has the prefix in other letter case only. |
| Ranges.ScannedMeans | charmhelpers/core/unitdata.py:220-229 | The plain answer holds just the stored rows that the pattern catches. |
| Ranges.StrippedMeans | charmhelpers/core/unitdata.py:226-229 | The stripped answer holds these rows under what is left behind as many characters as the prefix has, and nothing else. |
| Ranges.StrippedScanIsRange | charmhelpers/core/unitdata.py:222-229 | With an exact scan, the stripped dictionary is the range under the prefix. |
| Ranges.UpdateThenRange | charmhelpers/core/unitdata.py:231-240 | After an update the range is the old one overridden by the mapping, and no key outside the prefix changes. |
| Ranges.UpdateKeepsDistinct | charmhelpers/core/unitdata.py:231-240 | An update by prefix keeps the prefix's scan exact. |
| Ranges.UpdateStep | charmhelpers/core/unitdata.py:239-240 | Setting one more key of the mapping after any part of it gives the update by the larger part: the order does not matter. |
| Ranges.UnsetPrefixEmptiesRange | charmhelpers/core/unitdata.py:268-274 | Removal by prefix empties the range, alters no value, and spares every other key iff the scan is exact. |
| Ranges.PrefixRemovalKeepsLog | charmhelpers/core/unitdata.py:268-274 | A removal by prefix that does not fail leaves a log that tells the store iff every key it caught is the pattern itself or held the marker's text. |
| Ranges.PrefixRemovalMisleads | charmhelpers/core/unitdata.py:268-274 | A value stored in one scope and removed by prefix in the next is still the newest row of its key. |
| Ranges.PatchIsExact | charmhelpers/core/unitdata.py:328-355 | Patching the range with the delta gives the mapping iff every `None` in the mapping is stored already. |
| Ranges.NewNoneIsLost | charmhelpers/core/unitdata.py:340-342 | A new key with the value `None` gives a delta that patches to nothing. |
| Ranges.DeltaAfterUpdate | charmhelpers/core/unitdata.py:328-355 | After an update with the same mapping the delta is left with exactly the keys absent from the mapping. |
| Revisions.OpIsLogged | charmhelpers/core/unitdata.py:231-326 | A set, unset, update or removal of listed keys that does not fail leaves one row under the scope's version for every key it changes or marks, and moves no other row. |
| Revisions.LoggedKeepsLog | charmhelpers/core/unitdata.py:303-324 | Such a change keeps the log telling the store: a stored key's newest row is its value, a removed key's the marker. |
| Revisions.UnsetKeysIsExact | charmhelpers/core/unitdata.py:261-267 | Removing listed keys removes just these and logs each when any was stored; it fails, with nothing logged, when a key is listed twice or already has a row under the version. |
| Revisions.UnsetKeysGone | charmhelpers/core/unitdata.py:261-263 | In terms of names and prefix: `prefix + name` is gone for every listed name, and nothing else goes or changes. |
| Revisions.UnsetKeysFailing | charmhelpers/core/unitdata.py:264-267 | It fails iff it has something to log and a name is listed twice or `prefix + name` already has a row under the version. |
| Revisions.UnsetKeysRows | charmhelpers/core/unitdata.py:264-267 | The rows logged are the marker for every `prefix + name`, when one of these was stored, and no other. |
| Revisions.LaterOpWins | charmhelpers/core/unitdata.py:276-301 | Operations take effect in their order, a later value over an earlier one, and none behind an error. |
| History.ScopeKeepsLog | charmhelpers/core/unitdata.py:357-383 | From any working and committed copy, a scope that commits anything, by ending well or by a `flush` of its own before failing, extends the log under one version; one that commits nothing goes back to the last commit. |
| History.LaterScopeWins | charmhelpers/core/unitdata.py:357-375 | Scopes take effect in their order: the last one's value is there in the end, under the next version and its own name. |
| History.RunKeepsLog | charmhelpers/core/unitdata.py:252-418 | Over any run of scopes that set, update, remove one key or a list of keys, with or without `flush` inside, the log tells the present store and the store last committed under each version. |
| History.QuietOps | charmhelpers/core/unitdata.py:303-305 | Without revisions no run of operations fails on the log or writes to it. |
| History.ReplayIsExact | charmhelpers/core/unitdata.py:247-250 | Rebuilding a store from the log is exact iff the store holds no text equal to the removal marker. |
| History.DeletedTextIsLost | charmhelpers/core/unitdata.py:247-250 | One scope that stores the marker's text leaves a log that rebuilds an empty store. |
| History.HistoryReplays | charmhelpers/core/unitdata.py:407-418 | Replaying the log of any run up to a version gives the store as committed under it, iff that store holds no such text; the last version is the present. |
| History.RowIffTouched | charmhelpers/core/unitdata.py:252-324 | A scope's version has a row for a key iff some operation of the scope changed what the key holds or listed it in a removal that removed something. |
| History.UnsetFailsIffTouched | charmhelpers/core/unitdata.py:242-250 | A removal raises iff the key is stored and the same scope has changed it or listed it in a removal. |
| History.SetThenUnsetRollsBack | charmhelpers/core/unitdata.py:242-250 | A new value set and removed in one scope takes the whole scope back. |
| Storage.Storage.GetRange | charmhelpers/core/unitdata.py:210-229 | The scanned rows; stripped and with an exact scan, the range under the prefix. |
| Storage.Storage.Set | charmhelpers/core/unitdata.py:276-326 | The value is stored; a row is logged only for a changed value inside a scope that keeps revisions. |
| Storage.Storage.Update | charmhelpers/core/unitdata.py:231-240 | All keys of the mapping are set under the prefix, no other key changes, and the result is one for every order. |
| Storage.Storage.Unset | charmhelpers/core/unitdata.py:242-250 | The key is gone in any case; logging fails iff the scope's version already has a row for it. |
| Storage.Storage.UnsetKeys | charmhelpers/core/unitdata.py:261-267 | Exactly the stored keys `prefix + name` of listed names go; every listed one is logged once any went; the insert fails iff a name is listed twice or has a row under the version, and then nothing is logged. |
| Storage.Storage.UnsetPrefix | charmhelpers/core/unitdata.py:268-274 | Exactly the keys that match the pattern go, and the pattern itself is logged as a key. |
| Storage.Storage.Flush | charmhelpers/core/unitdata.py:377-383 | Working and committed copy become equal: to the working one on commit, to the committed one on rollback. |
| Storage.Storage.HookScope | charmhelpers/core/unitdata.py:357-375 | Commit of the body's effect under the next version, recorded with the scope's name; rollback to the last commit, a `flush` in the body included; or neither when the body leaves by an exception that is no `Exception`; a nested scope is refused. |
| Storage.Storage.DeltaFrom | charmhelpers/core/unitdata.py:328-355 | The delta holds a key iff the stripped scan and the mapping disagree on it, with both values, `None` for a missing one. |
| Storage.Storage.GetHistory | charmhelpers/core/unitdata.py:407-418 | The key's rows with the hooks of their versions; in a sound log none is lost by the join. |
| JsonText.KeyInjective | charmhelpers/core/hookenv.py:83-83 | Different functions or arguments never share a cache key. |
| JsonText.KeyShows | charmhelpers/core/hookenv.py:83-83 | A plain name passed by position or keyword occurs in the call's key. |
| JsonText.EscapeIs | charmhelpers/core/hookenv.py:83-83 | A character outside printable ASCII is written by its code, or by those of its surrogates. |
| RelationCache.LocalReadShows | charmhelpers/core/hookenv.py:95-103 | The key of a covered read about the local unit contains the unit's name, so the flush finds it. |
| RelationCache.WriteKeepsRemote | charmhelpers/core/hookenv.py:500-533 | A write changes no answer about any other unit. |
| RelationCache.LastWriteIsRead | charmhelpers/core/hookenv.py:500-533 | Over any sequence of accesses the unit's read of its own attribute gives what the last write of it on that relation set, or nothing where that was `None`. |
| RelationCache.ReadIs | charmhelpers/core/hookenv.py:460-477 | What an unmemoised call answers, in terms of the relation data only. |
| RelationCache.ByPositionOrByName | charmhelpers/core/hookenv.py:460-477 | The same arguments by position, by keyword or mixed are the same question. |
| RelationCache.CoveredIff | charmhelpers/core/hookenv.py:460-481 | Which calls are covered: those without `app` that name a unit, or whose default unit is a remote one. |
| RelationCache.WrittenIs | charmhelpers/core/hookenv.py:508-533 | A relation-set changes just the named settings of the local unit on that relation; `None` removes one. |
| RelationCache.HookCache.RelationGet | charmhelpers/core/hookenv.py:459-481 | For arguments by position, by keyword or mixed: attribute, unit and relation are taken in this order; the answer is that attribute of that unit on that relation, nothing if it is missing, the whole bag without an attribute, and the remote unit's data without a unit. With a memo free of out-of-date covered entries, a covered call is answered from the data of the moment. |
| RelationCache.HookCache.OtherCached | charmhelpers/core/hookenv.py:67-92 | Other memoised functions in the same cache never disturb that. |
| RelationCache.HookCache.Flush | charmhelpers/core/hookenv.py:95-103 | Exactly the entries whose key contains the text are dropped. |
| RelationCache.HookCache.RelationSet | charmhelpers/core/hookenv.py:500-533 | The write takes effect and leaves no out-of-date covered entry in the memo. |
| RelationCache.HookCache.RunAccesses | charmhelpers/core/hookenv.py:64-103 | In any sequence of writes and memoised reads every covered read answers from the data of its moment. |
| FstabText.HydrateShow | charmhelpers/core/fstab.py:48-70 | A printed entry of words parses back to itself. |
| FstabText.ShowIs | charmhelpers/core/fstab.py:48-54 | The printed fields, in order, with one space between them. |
| FstabText.FieldsIff | charmhelpers/core/fstab.py:65-70 | The fields of a line are its words, however they are spaced, and every line is its fields in some spacing. |
| FstabText.SignificantIff | charmhelpers/core/fstab.py:75-80 | A line counts iff it has a character that is not white space and the first such is no `#`. |
| FstabText.HydrateWords | charmhelpers/core/fstab.py:32-43 | Four words are device, mount point, type and options in this order, with zeros for the numbers; a fifth and sixth are the numbers; any other count, and a number that does not read, are the two errors. |
| PythonInt.DigitsReadIff | charmhelpers/core/fstab.py:42-43 | Digits with single underscores inside are what `int` reads. |
| PythonInt.DigitsAppend | charmhelpers/core/fstab.py:42-43 | A digit counts ten times as much for every digit behind it. |
| PythonInt.UnderscoreIsIgnored | charmhelpers/core/fstab.py:42-43 | An underscore between digits does not count. |
| PythonInt.SignIs | charmhelpers/core/fstab.py:42-43 | One sign may stand in front. |
| FstabText.FindIsFirst | charmhelpers/core/fstab.py:83-88 | The search finds the first line with the value, and none only when there is none. |
| FstabText.FindAt | charmhelpers/core/fstab.py:72-88 | The search gives the first line with the value, unless a line with too few or too many fields comes before it; then it raises. |
| FstabText.FindNowhere | charmhelpers/core/fstab.py:72-88 | Where no line has the value, it gives none, unless some line has too few or too many fields. |
| FstabText.LocateInRange | charmhelpers/core/fstab.py:98-113 | The line to remove holds the entry, and no earlier line equals it. |
| FstabText.LocateAt | charmhelpers/core/fstab.py:98-113 | The line to remove is the first that is the entry, unless a line that is no entry comes before it; then that line's error is raised. |
| FstabText.LocateNowhere | charmhelpers/core/fstab.py:98-113 | Where no line is the entry, nothing is to be removed, unless some line is no entry. |
| FstabText.RemoveKeepsOthers | charmhelpers/core/fstab.py:98-118 | A removal takes out one line, which is the entry, and keeps all others in order. |
| FstabText.AddThenRemove | charmhelpers/core/fstab.py:90-126 | Adding and then removing by mount point restores the file iff it ended in a newline. |
| FstabText.AddedToComment | charmhelpers/core/fstab.py:90-96 | An entry added behind a comment without newline becomes part of the comment and is not found again. |
| FstabText.SomeEntryIsLost | charmhelpers/core/fstab.py:90-96 | There is such a file and such an entry. |
| FstabText.ShowInjective | charmhelpers/core/fstab.py:45-54 | Entries of words that print alike, and so count as equal, have the same mount point. |
| Fstab.Fstab.GetEntryByAttr | charmhelpers/core/fstab.py:72-88 | The first line with the value, or the error of a malformed line before it; position left at the end. |
| Fstab.Fstab.AddEntry | charmhelpers/core/fstab.py:90-96 | The entry's text is appended iff no line has its device and none is malformed; otherwise the file stays as it is, and the answer says why. |
| Fstab.Fstab.RemoveEntry | charmhelpers/core/fstab.py:98-118 | Seek, rewrite and truncate leave the file without the first line that is the entry, and nothing of the old tail; with no such line, or a bad line before it, the file stays as it is. |
| Fstab.Fstab.RemoveByMountpoint | charmhelpers/core/fstab.py:120-126 | The first line with the mount point goes; a malformed line before it raises one error, one with bad numbers the other; nothing else changes the file. |
| CpuMasks.OrBits | charmhelpers/contrib/openstack/context.py:2775-2775 | A bit of `a \| b` is set iff it is set in either. |
| CpuMasks.HasBitIs | charmhelpers/contrib/openstack/context.py:2775-2775 | Bit i of a number is the last binary digit of the number divided by `1 << i`. |
| CpuMasks.MaskBits | charmhelpers/contrib/openstack/context.py:2772-2775 | Bit i of a mask is set iff core i is listed. |
| CpuMasks.MaskSize | charmhelpers/contrib/openstack/context.py:2764-2776 | A mask has at most one bit per listed core, and one each iff no core is listed twice. |
| PythonInt.ParseFormatHex | charmhelpers/contrib/openstack/context.py:2776-2776 | The hexadecimal text of a number reads back as the number, padded or not. |
| CpuMasks.CpuMask | charmhelpers/contrib/openstack/context.py:2764-2776 | The text begins with `0x` and has at least two digits; bit b of its number is set iff some node has b at a position that `cores[:n]` takes; the number of bits is at most the sum of min(n, size) over the nodes, with the cases of no count and of a negative one, and equals it iff no core is taken at two places. |
| CpuMasks.TakenMeans | charmhelpers/contrib/openstack/context.py:2773-2774 | A core is taken iff some node has it among its first n, or among all but the last n for a negative count. |
| CpuMasks.TakenOnceIff | charmhelpers/contrib/openstack/context.py:2773-2774 | The cores taken are without duplicates iff no core stands at two places that are taken. |
| CpuMasks.SumTakenIs | charmhelpers/contrib/openstack/context.py:2773-2774 | How many are taken, from the sizes of the nodes alone. |
| PythonInt.HexAppend | charmhelpers/contrib/openstack/context.py:2776-2776 | A hexadecimal digit counts sixteen times as much for every digit behind it. |
| CpuMasks.PmdCpuMask | charmhelpers/contrib/openstack/context.py:2778-2791 | The text reads as a mask whose bits are the parsed cores; a list that does not parse raises. |
| CpuMasks.ParseCpuList | charmhelpers/contrib/openstack/context.py:2728-2748 | The loop over the parts, stopping at the first error, is the meaning of the list. |
| CpuMasks.ForeignTextIsEmpty | charmhelpers/contrib/openstack/context.py:2736-2736 | One foreign character, other than a newline at the end, and the whole text counts for nothing. |
| CpuMasks.OwnTextIsRead | charmhelpers/contrib/openstack/context.py:2736-2737 | Any other text that is not empty is read part by part. |
| CpuMasks.PartsMustRead | charmhelpers/contrib/openstack/context.py:2738-2747 | A part that does not read is an error wherever it stands. |
| CpuMasks.DashMeansRange | charmhelpers/contrib/openstack/context.py:2739-2742 | Numbers on both sides of the first dash are a range; what follows a second dash is ignored. |
| CpuMasks.CaretMeansExclusion | charmhelpers/contrib/openstack/context.py:2743-2745 | Otherwise the number behind the first caret is taken out. |
| CpuMasks.PlainMeansCore | charmhelpers/contrib/openstack/context.py:2746-2747 | Otherwise the part is a number. |
| CpuMasks.OneRange | charmhelpers/contrib/openstack/context.py:2741-2742 | A range holds its two ends and what lies between. |
| CpuMasks.RangesAddUp | charmhelpers/contrib/openstack/context.py:2738-2747 | The cores of later ranges stand behind those of earlier ones. |
| CpuMasks.FirstIsRemoved | charmhelpers/contrib/openstack/context.py:2745-2745 | An exclusion takes out the first occurrence and keeps the rest in order. |
| CpuMasks.RangesMinusExclusions | charmhelpers/contrib/openstack/context.py:2738-2747 | Ranges followed by exclusions are accepted iff every exclusion meets a core still there, and denote the ranges' cores less one occurrence each. |
| CpuMasks.DisjointRangesDenoteDifference | charmhelpers/contrib/openstack/context.py:2738-2747 | Disjoint ranges and exclusions denote plain set difference. |
| CpuMasks.ParseShownList | charmhelpers/contrib/openstack/context.py:2736-2748 | The text of any list of items parses to what the items mean. |
| Migration.CopyIsFirst | charmhelpers/contrib/peerstorage/__init__.py:87-112 | A copy takes the peer's value, only where the leader has none and only for a key not yet settled, and settles it. |
| Migration.CopyIff | charmhelpers/contrib/peerstorage/__init__.py:87-112 | A read copies a key iff the key is unsettled, the leader has no value for it and the peer another, and the read is a full one that goes through, or asks for the key and finds a value that is not empty. |
| Migration.CopiedAtMostOnce | charmhelpers/contrib/peerstorage/__init__.py:59-121 | Over any run of reads, writes and new peer data each key is copied at most once. |
| Migration.SettledKeyStays | charmhelpers/contrib/peerstorage/__init__.py:59-121 | A settled key changes only by the leader's own writes: a cleared one is never brought back. |
| Migration.ReadDecides | charmhelpers/contrib/peerstorage/__init__.py:59-121 | Over any run, a key that a read settles keeps the leader's value of that moment if there was one or it was settled before, else the peer's, until the leader writes it; only an empty peer text under `settings` is dropped by a full read. |
| Migration.SettledIff | charmhelpers/contrib/peerstorage/__init__.py:87-119 | A read settles a key iff it is settled already, or the read is for that key and either side has a value, or it is a full read that goes through and the peer has the key. |
| Migration.ReadAllIsIdempotent | charmhelpers/contrib/peerstorage/__init__.py:104-119 | A full read settles every peer key iff it does not raise, and a second one changes nothing more; one that raises changes nothing and the next one raises too. |
| Migration.RaisingReadsChangeNothing | charmhelpers/contrib/peerstorage/__init__.py:104-119 | However often a raising full read is repeated, nothing is settled or written. |
| Migration.SettingsKeyRaises | charmhelpers/contrib/peerstorage/__init__.py:114-115 | Peer data with a value under `settings`, and a leader value under it when another key is to be settled, both make the full read raise. |
| Migration.PeerStorage.LeaderSet | charmhelpers/core/hookenv.py:1231-1244 | Passing values by keyword raises iff one under `settings` is not empty; an empty one is forgotten; all others are written. |
| Migration.PeerStorage.LeaderGetAll | charmhelpers/contrib/peerstorage/__init__.py:104-121 | It raises iff a peer key is left to settle and there is a non-empty value under `settings`, the leader's or the peer's unsettled one. Otherwise the answer has, key by key, the peer's value where it is unsettled and the leader has none, else the leader's; the leader then holds the same, except under `settings`; all peer keys are settled; and it writes only when there was something to settle. |
| Migration.PeerStorage.LeaderGet | charmhelpers/contrib/peerstorage/__init__.py:87-102 | The answer is the peer's value iff the key is unsettled, the leader has none and the peer has one, else the leader's; one key is settled iff it has a value on either side; the leader is written only for a copy. |
| PolicyFiles.PolicyEntriesAreAll | charmhelpers/contrib/openstack/policyd.py:406-448 | Every policy file of the archive is listed as often as it is there, nothing else is, and the order is the archive's. |
| PolicyFiles.NameWithExtension | charmhelpers/contrib/openstack/policyd.py:441-447 | The name is what stands between the last slash and the last dot behind it, if that is more than dots; the extension decides in either letter case. |
| PolicyFiles.NameWithoutExtension | charmhelpers/contrib/openstack/policyd.py:441-447 | A file without such a dot is no policy file. |
| PolicyFiles.CutIs | charmhelpers/contrib/openstack/policyd.py:442-442 | The cut is at the last dot, iff something other than dots stands before it. |
| PolicyFiles.LowerIs | charmhelpers/contrib/openstack/policyd.py:445-445 | Capital ASCII letters become small, nothing else changes. |
| PolicyFiles.YamlFiles | charmhelpers/contrib/openstack/policyd.py:432-448 | The loop lists exactly these entries. |
| PolicyFiles.PathDeterminesStem | charmhelpers/contrib/openstack/policyd.py:553-572 | Entries written to the same path have the same name, which the first look refuses. |
| PolicyFiles.InstalledIsExact | charmhelpers/contrib/openstack/policyd.py:704-730 | The installed files are one for every policy entry, with the text accepted for it. |
| PolicyFiles.WrittenIs | charmhelpers/contrib/openstack/policyd.py:704-730 | An entry is written with a text iff its path is not blacklisted, a template finds a template function and renders, validation takes the document as this text, and the write succeeds. |
| PolicyFiles.GoodIff | charmhelpers/contrib/openstack/policyd.py:387-403 | An archive is installed iff it opens, holds a policy file, no two of its policy files share a name, and each is accepted. |
| PolicyFiles.InstalledFrom | charmhelpers/contrib/openstack/policyd.py:709-712 | Every installed path comes from an entry, and none is blacklisted. |
| PolicyFiles.BelowFurther | charmhelpers/contrib/openstack/policyd.py:525-534 | What is found below a path is found step by step. |
| PolicyFiles.PathFurther | charmhelpers/contrib/openstack/policyd.py:525-534 | The text of a path is put together step by step. |
| PolicyFiles.OneBelow | charmhelpers/contrib/openstack/policyd.py:525-534 | One step is one item of the directory, and a slash and its name in the text. |
| PolicyFiles.PolicyDirectory.Clean | charmhelpers/contrib/openstack/policyd.py:501-534 | Every entry of the directory but those to keep is removed, a directory with all that is in it; a path to keep further down goes unless its entry is kept. |
| PolicyFiles.InstallingKeeps | charmhelpers/contrib/openstack/policyd.py:687-730 | Installing after cleaning leaves every path below a blacklisted entry as it was, and every other blacklisted path gone. |
| PolicyFiles.SurvivesIff | charmhelpers/contrib/openstack/policyd.py:525-534 | A blacklisted path that is there survives, whatever the outcome, iff its entry of the directory is blacklisted itself. |
| PolicyFiles.NestedPathIsRemoved | charmhelpers/contrib/openstack/policyd.py:525-534 | A blacklisted file in a directory that is not blacklisted is removed. |
| PolicyFiles.OpenAndFilter | charmhelpers/contrib/openstack/policyd.py:387-403 | Counting names refuses an archive iff it does not open, holds no policy file, or two of them share a name. |
| PolicyFiles.PolicyDirectory.Process | charmhelpers/contrib/openstack/policyd.py:687-763 | True iff the archive is good; then the directory holds what was blacklisted, as it was, and for every policy file of the archive the accepted text under directory, name and `.yaml`, and nothing else; otherwise the blacklisted entries alone; what becomes of blacklisted paths further down; when the success marker can be trusted. |
| PolicyFiles.StaleMarker | charmhelpers/contrib/openstack/policyd.py:695-763 | After an archive that does not open, an old success file stands over an emptied directory. |
| Overlay.ApplyOverrides | charmhelpers/contrib/hardening/utils.py:86-106 | It raises iff the overrides clash with schema and settings at some place: a scalar where a dictionary belongs, a mistake in the schema, or a branch or dictionary the settings lack; otherwise it gives the overlay. |
| Overlay.FitsIff | charmhelpers/contrib/hardening/utils.py:93-105 | The same as a law: there is no other way to raise, and keys that the schema does not have never matter. |
| Overlay.SuppliedLeafIsOverride | charmhelpers/contrib/hardening/utils.py:92-99 | At every depth, a schema leaf that the overrides supply takes the override. |
| Overlay.RestIsDefault | charmhelpers/contrib/hardening/utils.py:92-106 | Any path not on the way to or below a supplied leaf keeps its default; in particular no key is added outside the schema. |
| Overlay.NothingSupplied | charmhelpers/contrib/hardening/utils.py:92-106 | Overrides that supply no leaf change nothing. |
| Overlay.OverlayIsIdempotent | charmhelpers/contrib/hardening/utils.py:86-106 | Applying the same overrides twice is applying them once. |
| Restarts.ChangedIff | charmhelpers/core/host.py:925-926 | The changed entries are exactly those whose checksum differs. |
| Restarts.UniqueIsInOrder | charmhelpers/core/host.py:931-931 | Each service once, in order of first appearance. |
| Restarts.PlanInMapOrder | charmhelpers/core/host.py:923-931 | The plan lists services in the order in which the changed paths of the map, and their lists, name them first. |
| Restarts.FilesIff | charmhelpers/core/host.py:928-929 | A service's changed files are exactly the changed paths that name it. |
| Restarts.FilesAre | charmhelpers/core/host.py:925-929 | The files are the changed paths in map order, each as often as it names the service. |
| Restarts.ServiceIsHandledOnce | charmhelpers/core/host.py:936-947 | The events about a service are its own sequence once if it is planned, and none otherwise. |
| Restarts.ServiceEvents | charmhelpers/core/host.py:935-947 | Within one service's events the question comes first, a stop is followed at once by the start, and the closing hook is last. |
| Restarts.EventsInOrder | charmhelpers/core/host.py:936-947 | Every event about an earlier service of the plan comes before every event about a later one. |
| Restarts.AllIsDue | charmhelpers/core/host.py:918-947 | In terms of the map: what is due happens, once, in the order that is due, and nothing else happens. |
| Restarts.OnlyOneList | charmhelpers/core/host.py:925-947 | These three clauses leave no choice: every list of events that meets them is the one that is carried out. |
| Restarts.RefusedSeesNoAction | charmhelpers/core/host.py:936-947 | A restart event occurs iff its service is planned, is permitted for its changed files, and is driven that way: its own function, or else the verbs. |
| Restarts.ActOnService | charmhelpers/core/host.py:937-947 | The loop body produces exactly these events, and none but the question when refused. |
| Restarts.PlanningIsExact | charmhelpers/core/host.py:882-947 | A service is considered, once and with exactly its changed files, iff some path that names it has changed. |
| Restarts.PostRestartOnChange | charmhelpers/core/host.py:893-947 | The event list, fixed by three clauses over the map alone: an event occurs iff it is due, none occurs twice, and the wait precedes all, services come in the order in which changed paths name them, and each service's question, stop, start and closing hook in theirs. |

## Left out

- Coordinator.Coordinator.ClearReleased: as for `Handle`, the `strptime` of a revoked grant and the `released` callback.
- Coordinator.Coordinator.Handle: the `strptime` of a revoked grant, which could raise on a malformed stamp, and the `released` callback and log messages it feeds.
- Coordinator.Coordinator.LoadState: which relation is chosen, the JSON text of the rows and the Juju version check; the rows arrive as values.
- Hooks.HookProcess.Execute: callbacks of other code do not raise, do not touch the coordinator and register no further callbacks.
- Hooks.HookIsRun: the local-file fallback is part of the class and of `Hooks.HookProcess`, not of the protocol, which has a peer relation.
- Fairness.BoundedWaiting: whether units ever run another hook is up to Juju; the bound is on changes of hands, not on time.
- Timestamps.FormatParse: only fixed-width stamps with four-digit years are read; `strptime` takes some shorter fields too.
- JsonText.KeyInjective: arguments are `None` or text, and a character is never half of a surrogate pair; Python's text can hold the two halves separately, and then shares the key of the whole character.
- RelationCache.HookCache.RunAccesses: reads with `app` are not covered; application bags, `relations()` and helpers that alter cached dictionaries, errors of the hook tools, and reads that leave the unit to a default which is the local unit. A unit name must be plain text, as Juju's are.
- RelationCache.LastWriteIsRead: an empty string set with relation-set stays an empty string here; the hook tool treats it as a removal.
- Storage.Storage.UnsetKeys: SQLite's limit on the number of parameters of one statement.
- Storage.Storage.Flush: a closed connection, on which a rollback does nothing and everything else raises.
- Storage.Storage.GetHistory: the date column, and decoding the values.
- Storage.Storage.HookScope: the date and the default name of a scope, an operation's error caught inside the body, and a rollback called by the body, which would take the scope's own hook record with it.
- Storage.Storage.DeltaFrom: values compare by their JSON text; Python also holds `1 == True` and `1 == 1.0`.
- History.RunKeepsLog: changes outside any scope are not logged, so a run consists of scopes; removal by prefix is not among their operations, because it keeps the log only under the condition of `Ranges.PrefixRemovalKeepsLog`.
- FstabText.HydrateShow: lines are ASCII; the default for empty options and Python's limit on the digits of a number are not modelled.
- CpuMasks.ParseCpuList: Python's limit on the digits of a number.
- CpuMasks.CpuMask: the reading of `/sys`; the nodes' lists are the input.
- Migration.ReadDecides: an empty text written with leader-set stays an empty value here; the tool removes the key.
- Migration.PeerStorage.LeaderGetAll: peer data that itself contains the key under which migrated keys are recorded.
- PolicyFiles.PolicyDirectory.Clean: creating a directory that is missing, and its ownership.
- PolicyFiles.PolicyDirectory.Process: file names are not preprocessed and archives are flattened; YAML, validation and templates are functions passed in; permissions, and errors while removing files.
- Overlay.ApplyOverrides: settings are values, so the dictionary that is half changed when an error is raised is not modelled; all false values other than a dictionary are one value.
- Restarts.PostRestartOnChange: service commands are events; checksums are a function of the path.
- The `require` decorator, `request_timestamp` and custom `grant_` methods other than as a policy function.
- `Record`, `HookData`, `debug` and environment variables of the store.
- Package installation, MySQL, Nagios, ssh, ufw, certificates, Keystone and the other template contexts: plumbing and tables.
- Retry decorators, release-name comparators, size parsing and port arithmetic: they share no state with what is modelled here.
