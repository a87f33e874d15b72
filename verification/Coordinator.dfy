/**
  `BaseCoordinator` as it lives through one hook: it loads the two tables, updates them in
  place while the hook runs and hands back what is to be published.

  The policy stands for the `grant_<lock>` methods and `default_grant` of a subclass; a
  `Serial` coordinator is one whose policy satisfies `IsSerial`.
 */
module Coordinator {
  import opened Wrappers
  import opened Sequences
  import opened Lexicographic
  import opened LockTables

  /** The table after `acquire` has made sure that there is a request. The first line of the
      original's update files an empty row under the name of the lock; it is kept here. */
  function WithRequest(requests: Table, unit: string, lock: string, now: string): Table {
    if Entry(requests, unit, lock).Some? && Entry(requests, unit, lock).value != "" then requests
    else
      var filed := if lock in requests then requests else requests[lock := map[]];
      SetEntry(filed, unit, lock, now)
  }

  /** The row is there, all the same: filing a request adds a row for the unit and one for the lock. */
  lemma FilingAddsRows(requests: Table, unit: string, lock: string, now: string)
    ensures var outstanding := unit in requests && lock in requests[unit] && requests[unit][lock] != "";
            forall u :: u in WithRequest(requests, unit, lock, now)
                        <==> u in requests || (!outstanding && (u == unit || u == lock))
  {
  }

  /** The misfiled row is invisible to everybody: no entry of the table but the new request changes,
      and in particular no queue gains a unit. */
  lemma StrayRowIsHarmless(requests: Table, unit: string, lock: string, now: string, u: string, l: string)
    ensures Entry(WithRequest(requests, unit, lock, now), u, l) ==
            if u == unit && l == lock &&
               (Entry(requests, unit, lock).None? || Entry(requests, unit, lock).value == "")
            then Some(now) else Entry(requests, u, l)
    ensures lock != unit && lock !in requests
            ==> lock !in Queue(WithRequest(requests, unit, lock, now), l, {})
  {
    var after := WithRequest(requests, unit, lock, now);
    QueueMembers(after, l, {}, lock);
    assert lock !in requests ==> Entry(requests, lock, l).None?;
  }

  /** A unit's row once its granted locks have been released. */
  function ReleasedRow(requests: Table, grants: Table, unit: string): (row: Row)
    ensures forall l :: l in row <==> Entry(requests, unit, l).Some? && !IsGranted(requests, grants, unit, l)
    ensures forall l :: l in row ==> Some(row[l]) == Entry(requests, unit, l)
  {
    var row := RowOf(requests, unit);
    map l | l in row && !IsGranted(requests, grants, unit, l) :: row[l]
  }

  /** Offering every lock of the walk to the unit it stands beside, one after the other. */
  function GrantAll(policy: Policy, requests: Table, grants: Table, order: seq<(string, string)>): Table {
    if order == [] then grants
    else
      var last := order[|order| - 1];
      AfterGrant(policy, requests, GrantAll(policy, requests, grants, order[..|order| - 1]), last.1, last.0)
  }

  ghost predicate IsWalkOf(pairs: set<(string, string)>, order: seq<(string, string)>) {
    NoDuplicates(order) && forall p :: p in order <==> p in pairs
  }

  /** A walk over all requests: each (unit, lock) with a request once. */
  ghost predicate IsWalk(requests: Table, order: seq<(string, string)>) {
    NoDuplicates(order) && forall u, l :: (u, l) in order <==> Entry(requests, u, l).Some?
  }

  lemma WalkOn(policy: Policy, requests: Table, grants: Table, pairs: set<(string, string)>,
               order: seq<(string, string)>, unit: string, lock: string)
    requires IsWalkOf(pairs, order) && (unit, lock) !in pairs
    ensures IsWalkOf(pairs + {(unit, lock)}, order + [(unit, lock)])
    ensures GrantAll(policy, requests, grants, order + [(unit, lock)]) ==
            AfterGrant(policy, requests, GrantAll(policy, requests, grants, order), lock, unit)
  {
    assert (order + [(unit, lock)])[..|order|] == order;
  }

  /** Where the walk of `handle` stands after the pairs of `done`, offered in the order of `order`. */
  ghost predicate Walked(policy: Policy, requests: Table, cleared: Table, done: set<(string, string)>,
                         order: seq<(string, string)>, now: Table) {
    && IsWalkOf(done, order) && now == GrantAll(policy, requests, cleared, order) && Current(requests, now)
    && (forall u, l :: Entry(cleared, u, l).Some? ==> Entry(now, u, l) == Entry(cleared, u, l))
    && (IsSerial(policy) ==> SerialAfter(requests, cleared, done, now))
  }

  lemma WalkStep(policy: Policy, requests: Table, cleared: Table, done: set<(string, string)>,
                 order: seq<(string, string)>, now: Table, unit: string, lock: string)
    requires Walked(policy, requests, cleared, done, order, now)
    requires Entry(requests, unit, lock).Some? && (unit, lock) !in done
    ensures Walked(policy, requests, cleared, done + {(unit, lock)}, order + [(unit, lock)],
                   AfterGrant(policy, requests, now, lock, unit))
  {
    if IsSerial(policy) {
      SerialStep(policy, requests, cleared, done, now, unit, lock);
    }
    GrantKeepsCurrent(policy, requests, now, lock, unit);
    WalkOn(policy, requests, cleared, done, order, unit, lock);
  }

  /** What stands at the end of the walk. */
  lemma WalkEnds(policy: Policy, requests: Table, grants: Table, done: set<(string, string)>,
                 order: seq<(string, string)>, now: Table)
    requires Walked(policy, requests, Surviving(requests, grants), done, order, now)
    requires done == Pairs(requests)
    ensures IsWalk(requests, order) && now == GrantAll(policy, requests, Surviving(requests, grants), order)
    ensures Current(requests, now)
    ensures forall u, l :: Entry(grants, u, l).Some? && !Stale(requests, grants, u, l)
                           ==> Entry(now, u, l) == Entry(grants, u, l)
    ensures IsSerial(policy) ==> SerialHandled(requests, grants, now) && now == SerialOutcome(requests, grants)
  {
    if IsSerial(policy) {
      SerialAfterUnique(requests, Surviving(requests, grants), done, now, SerialOutcome(requests, grants));
    }
  }

  /** What a unit loads at the start of a hook when the peer relation is there. */
  function PeerRequests(visible: Table, unit: string, localState: Row): Table {
    if unit in visible then visible else visible[unit := localState]
  }

  class Coordinator {
    const localUnit: string
    const leader: bool
    const hasPeerRelation: bool
    const policy: Policy

    var requests: Table
    var grants: Table

    constructor (localUnit: string, leader: bool, hasPeerRelation: bool, policy: Policy)
      ensures this.localUnit == localUnit && this.leader == leader
      ensures this.hasPeerRelation == hasPeerRelation && this.policy == policy
    {
      this.localUnit, this.leader := localUnit, leader;
      this.hasPeerRelation, this.policy := hasPeerRelation, policy;
      requests, grants := map[], map[];
    }

    /** The local unit always has a row; `acquire` and `granted` index it without a check. */
    predicate Valid()
      reads this
    {
      localUnit in requests
    }

    /** `_load_state`: grants from leadership storage, requests from the peer relation, or from
        the local file while there is no peer relation or this unit has published nothing on it. */
    method LoadState(leaderData: Option<Table>, peers: set<string>, published: Table, localState: Row)
      modifies this
      ensures Valid()
      ensures grants == if leaderData.Some? then leaderData.value else map[]
      ensures hasPeerRelation ==>
                forall u, l :: Entry(requests, u, l) ==
                               if u != localUnit then (if u in peers then Entry(published, u, l) else None)
                               else if localUnit in published then Entry(published, localUnit, l)
                               else if l in localState then Some(localState[l]) else None
      ensures hasPeerRelation ==>
                forall u :: u in requests <==> u == localUnit || (u in peers && u in published)
      ensures requests == if hasPeerRelation
                          then PeerRequests(map u | u in published && u in peers + {localUnit} :: published[u],
                                            localUnit, localState)
                          else map[localUnit := localState]
    {
      grants := if leaderData.Some? then leaderData.value else map[];
      if !hasPeerRelation {
        requests := map[localUnit := localState];
        return;
      }
      requests := map[];
      var units := peers + {localUnit};
      ghost var done: set<string> := {};
      while units != {}
        invariant units !! done && units + done == peers + {localUnit}
        invariant grants == if leaderData.Some? then leaderData.value else map[]
        invariant requests == map u | u in published && u in done :: published[u]
        decreases units
      {
        var unit :| unit in units;
        if unit in published {
          requests := requests[unit := published[unit]];
        }
        units, done := units - {unit}, done + {unit};
      }
      if localUnit !in requests {
        requests := requests[localUnit := localState];
      }
    }

    /** `granted`: the recorded grant carries the stamp of our own request. */
    method Granted(lock: string) returns (ok: bool)
      requires Valid()
      ensures ok <==> IsGranted(requests, grants, localUnit, lock)
      ensures ok <==> lock in requests[localUnit] && requests[localUnit][lock] != ""
                      && localUnit in grants && lock in grants[localUnit]
                      && grants[localUnit][lock] == requests[localUnit][lock]
    {
      var ts := if lock in requests[localUnit] then Some(requests[localUnit][lock]) else None;
      ok := ts.Some? && ts.value != "" && Entry(grants, localUnit, lock) == ts;
    }

    method Requested(lock: string) returns (ok: bool)
      requires Valid()
      ensures ok <==> lock in requests[localUnit]
    {
      ok := lock in requests[localUnit];
    }

    /** `grant`: maybe give the lock to a unit. */
    method Grant(lock: string, unit: string) returns (ok: bool)
      modifies this`grants
      ensures grants == if leader then AfterGrant(policy, requests, old(grants), lock, unit) else old(grants)
      ensures ok <==> leader && Entry(grants, unit, lock).Some?
      ensures var holders := set u | u in old(grants) && lock in old(grants)[u];
              forall u, l :: Entry(grants, u, l) ==
                             if leader && u == unit && l == lock && unit !in holders
                                && unit in requests && lock in requests[unit]
                                && policy(lock, unit, holders, Queue(requests, lock, holders))
                             then Some(requests[unit][lock]) else Entry(old(grants), u, l)
      ensures ok && leader && Current(requests, old(grants))
              ==> Entry(grants, unit, lock) == Entry(requests, unit, lock)
    {
      if !leader {
        return false;
      }
      var granted := HolderSet(lock);
      if unit in granted {
        QueueMembers(requests, lock, granted, unit);
        return true;
      }
      var queue := WaitingUnits(lock, granted);
      QueueMembers(requests, lock, granted, unit);
      if unit !in queue {
        return false;
      }
      if policy(lock, unit, granted, queue) {
        grants := SetEntry(grants, unit, lock, requests[unit][lock]);
        return true;
      }
      return false;
    }

    /** The first loop of `grant`: every unit with a recorded grant for the lock. */
    method HolderSet(lock: string) returns (granted: set<string>)
      ensures granted == Holders(grants, lock)
    {
      granted := {};
      var units := grants.Keys;
      while units != {}
        invariant units <= grants.Keys
        invariant granted == set u | u in grants && u !in units && lock in grants[u]
        decreases units
      {
        var u :| u in units;
        if lock in grants[u] {
          granted := granted + {u};
        }
        units := units - {u};
      }
    }

    /** The second loop of `grant`: (stamp, unit) of everyone waiting, sorted. */
    method WaitingUnits(lock: string, granted: set<string>) returns (queue: seq<string>)
      ensures queue == Queue(requests, lock, granted)
    {
      var reqs: set<Ticket> := {};
      var units := requests.Keys;
      while units != {}
        invariant units <= requests.Keys
        invariant reqs == set u | u in requests && u !in units && u !in granted && lock in requests[u]
                            :: Ticket(requests[u][lock], u)
        decreases units
      {
        var u :| u in units;
        if u !in granted && lock in requests[u] {
          reqs := reqs + {Ticket(requests[u][lock], u)};
        }
        units := units - {u};
      }
      assert reqs == Tickets(requests, lock, granted);
      queue := UnitsOf(Sorted(reqs));
    }

    /** The first half of `acquire`: a stamp of our own is kept, else a new one is filed. */
    method FileRequest(lock: string, now: string)
      requires Valid()
      modifies this`requests
      ensures Valid() && requests == WithRequest(old(requests), localUnit, lock, now)
    {
      var ts := Entry(requests, localUnit, lock);
      if ts.None? || ts.value == "" {
        if lock !in requests {
          requests := requests[lock := map[]];
        }
        requests := SetEntry(requests, localUnit, lock, now);
      }
    }

    /** `acquire`: file a request unless one is outstanding, then look whether we are in.

        It answers True exactly when `granted` would, except that a leader whose own recorded
        grant is stale is told True: the code trusts that `handle` has run before. */
    method Acquire(lock: string, now: string) returns (ok: bool)
      requires Valid()
      requires now != ""
      modifies this
      ensures Valid()
      ensures requests == WithRequest(old(requests), localUnit, lock, now)
      ensures grants == if leader && !IsGranted(requests, old(grants), localUnit, lock)
                        then AfterGrant(policy, requests, old(grants), lock, localUnit) else old(grants)
      ensures ok <==> IsGranted(requests, old(grants), localUnit, lock)
                      || (leader && Entry(grants, localUnit, lock).Some?)
      ensures ok && !IsGranted(requests, grants, localUnit, lock)
              <==> leader && Entry(old(grants), localUnit, lock).Some?
                   && !IsGranted(requests, old(grants), localUnit, lock)
      ensures IsGranted(requests, grants, localUnit, lock) ==> ok
      ensures leader && Current(old(requests), old(grants)) && Stamped(old(requests))
              ==> Current(requests, grants) && Stamped(requests)
                  && (ok <==> IsGranted(requests, grants, localUnit, lock))
    {
      ghost var before := requests;
      FileRequest(lock, now);
      ok := Granted(lock);
      if !ok && leader {
        ok := Grant(lock, localUnit);
        AdmittedWhenFree(lock, old(grants));
      }
      RequestKeepsCurrent(before, old(grants), localUnit, lock, now);
      GrantKeepsCurrent(policy, requests, old(grants), lock, localUnit);
    }

    /** `handle`: at the start of a leader's hook, drop every grant that its unit no longer asks for
        and offer each requested lock to the unit that asked for it. */
    method Handle()
      modifies this`grants
      ensures !leader ==> grants == old(grants)
      ensures leader ==> Current(requests, grants)
      ensures leader ==> exists order :: IsWalk(requests, order) &&
                           grants == GrantAll(policy, requests, Surviving(requests, old(grants)), order)
      ensures leader ==> forall u, l :: Entry(old(grants), u, l).Some? && !Stale(requests, old(grants), u, l)
                                        ==> Entry(grants, u, l) == Entry(old(grants), u, l)
      ensures leader && IsSerial(policy) ==> SerialHandled(requests, old(grants), grants)
      ensures leader && IsSerial(policy) ==> grants == SerialOutcome(requests, old(grants))
    {
      if !leader {
        return;
      }
      ClearReleased();
      ghost var cleared := grants;
      ghost var done: set<(string, string)> := {};
      ghost var order: seq<(string, string)> := [];
      SerialStart(requests, cleared);
      var units := requests.Keys;
      while units != {}
        invariant units <= requests.Keys
        invariant done == set u, l | u in requests && u !in units && l in requests[u] :: (u, l)
        invariant Walked(policy, requests, cleared, done, order, grants)
        decreases units
      {
        var unit :| unit in units;
        units := units - {unit};
        var locks := requests[unit].Keys;
        ghost var earlier := done;
        while locks != {}
          invariant locks <= requests[unit].Keys
          invariant done == earlier + set l | l in requests[unit] && l !in locks :: (unit, l)
          invariant Walked(policy, requests, cleared, done, order, grants)
          decreases locks
        {
          var lock :| lock in locks;
          locks := locks - {lock};
          WalkStep(policy, requests, cleared, done, order, grants, unit, lock);
          var _ := Grant(lock, unit);
          order := order + [(unit, lock)];
          done := done + {(unit, lock)};
        }
        assert done == set u, l | u in requests && u !in units && l in requests[u] :: (u, l);
      }
      assert done == Pairs(requests);
      WalkEnds(policy, requests, old(grants), done, order, grants);
    }

    /** The first loop of `handle`. */
    method ClearReleased()
      modifies this`grants
      ensures grants == Surviving(requests, old(grants))
    {
      ghost var before := grants;
      var units := grants.Keys;
      while units != {}
        invariant units <= grants.Keys == before.Keys
        invariant forall u, l :: Entry(grants, u, l) ==
                                 if u !in units && Stale(requests, before, u, l) then None else Entry(before, u, l)
        decreases units
      {
        var unit :| unit in units;
        units := units - {unit};
        var locks := grants[unit].Keys;
        while locks != {}
          invariant unit in grants && grants.Keys == before.Keys
          invariant locks <= grants[unit].Keys
          invariant forall u, l :: Entry(grants, u, l) ==
                                   if u !in units && (u == unit ==> l !in locks) && Stale(requests, before, u, l)
                                   then None else Entry(before, u, l)
          decreases locks
        {
          var lock :| lock in locks;
          locks := locks - {lock};
          assert Entry(grants, unit, lock) == Entry(before, unit, lock);
          if Entry(requests, unit, lock) != Some(grants[unit][lock]) {
            grants := DropEntry(grants, unit, lock);
          }
        }
      }
      SameTable(grants, Surviving(requests, before));
    }

    /** `_release_granted`: at the end of every hook, give up whatever was granted to this unit. */
    method ReleaseGranted()
      requires Valid()
      modifies this`requests
      ensures Valid()
      ensures requests == old(requests)[localUnit := ReleasedRow(old(requests), grants, localUnit)]
    {
      ghost var before := requests;
      var locks := requests[localUnit].Keys;
      while locks != {}
        invariant localUnit in requests && requests.Keys == before.Keys
        invariant locks <= requests[localUnit].Keys
        invariant forall u, l :: Entry(requests, u, l) ==
                                 if u == localUnit && l !in locks && IsGranted(before, grants, localUnit, l)
                                 then None else Entry(before, u, l)
        decreases locks
      {
        var lock :| lock in locks;
        locks := locks - {lock};
        assert Entry(requests, localUnit, lock) == Entry(before, localUnit, lock);
        var ok := Granted(lock);
        if ok {
          requests := DropEntry(requests, localUnit, lock);
        }
      }
      var after := before[localUnit := ReleasedRow(before, grants, localUnit)];
      forall u, l ensures Entry(requests, u, l) == Entry(after, u, l) {
        if u == localUnit {
          assert l in ReleasedRow(before, grants, localUnit) <==> Entry(requests, u, l).Some?;
        }
      }
      SameTable(requests, after);
    }

    /** `_save_state`: what is written to leadership storage, to the peer relation and to the local file. */
    method SaveState() returns (leaderWrite: Option<Table>, peerWrite: Option<Row>, localWrite: Option<Row>)
      requires Valid()
      ensures leaderWrite == if leader then Some(grants) else None
      ensures peerWrite == if hasPeerRelation then Some(requests[localUnit]) else None
      ensures localWrite == if hasPeerRelation then None else Some(requests[localUnit])
    {
      leaderWrite := if leader then Some(grants) else None;
      if hasPeerRelation {
        peerWrite, localWrite := Some(requests[localUnit]), None;
      } else {
        peerWrite, localWrite := None, Some(requests[localUnit]);
      }
    }

    lemma AdmittedWhenFree(lock: string, before: Table)
      ensures Admits(policy, requests, before, lock, localUnit) ==> Entry(before, localUnit, lock).None?
    {
      QueueMembers(requests, lock, Holders(before, lock), localUnit);
    }
  }

  /** Without `handle` the answer can be wrong: a leader that released and asks again before handling is
      told True on the strength of its old grant, though it is not granted. */
  method StaleGrantIsBelieved() returns (c: Coordinator, ok: bool)
    ensures fresh(c) && c.Valid() && c.leader && IsSerial(c.policy)
    ensures c.grants == map["u/0" := map["l" := "t1"]] && Entry(c.requests, "u/0", "l") == Some("t2")
    ensures ok && !IsGranted(c.requests, c.grants, c.localUnit, "l")
  {
    c := new Coordinator("u/0", true, true, SerialDefaultGrant);
    c.LoadState(Some(map["u/0" := map["l" := "t1"]]), {}, map["u/0" := map[]], map[]);
    assert Entry(c.requests, "u/0", "l").None?;
    ok := c.Acquire("l", "t2");
    QueueMembers(c.requests, "l", Holders(map["u/0" := map["l" := "t1"]], "l"), "u/0");
  }

  /** No request carries the empty text, which the original's truth test would take for no request. */
  ghost predicate Stamped(requests: Table) {
    forall u, l :: Entry(requests, u, l).Some? ==> Entry(requests, u, l).value != ""
  }

  lemma RequestKeepsCurrent(requests: Table, grants: Table, unit: string, lock: string, now: string)
    requires now != ""
    ensures Current(requests, grants) && Stamped(requests)
            ==> Current(WithRequest(requests, unit, lock, now), grants)
                && Stamped(WithRequest(requests, unit, lock, now))
  {
    var after := WithRequest(requests, unit, lock, now);
    forall u, l ensures Entry(after, u, l) ==
                        if u == unit && l == lock &&
                           (Entry(requests, unit, lock).None? || Entry(requests, unit, lock).value == "")
                        then Some(now) else Entry(requests, u, l)
    {
      StrayRowIsHarmless(requests, unit, lock, now, u, l);
    }
  }

  lemma GrantKeepsCurrent(policy: Policy, requests: Table, grants: Table, lock: string, unit: string)
    ensures Current(requests, grants) ==> Current(requests, AfterGrant(policy, requests, grants, lock, unit))
    ensures forall u, l :: Entry(grants, u, l).Some?
                           ==> Entry(AfterGrant(policy, requests, grants, lock, unit), u, l) == Entry(grants, u, l)
  {
    if Admits(policy, requests, grants, lock, unit) {
      QueueMembers(requests, lock, Holders(grants, lock), unit);
      assert Entry(grants, unit, lock).None?;
    }
  }

  lemma SerialStart(requests: Table, grants: Table)
    ensures SerialAfter(requests, grants, {}, grants)
  {
  }
}
