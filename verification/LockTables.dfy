/**
  The two tables every coordinator works on, `table[unit][lock] == stamp`, and what the
  leader decides from them. Everything here is a value; the class in Coordinator.dfy
  updates its own copies in place and is proved against these functions.
 */
module LockTables {
  import opened Wrappers
  import opened Lexicographic

  type Row = map<string, string>
  type Table = map<string, Row>

  /** A policy answers for (lock, unit, units holding the lock, units waiting in order). */
  type Policy = (string, string, set<string>, seq<string>) -> bool

  function RowOf(t: Table, unit: string): Row {
    if unit in t then t[unit] else map[]
  }

  /** The chained dictionary lookup `table.get(unit, {}).get(lock)`. */
  function Entry(t: Table, unit: string, lock: string): Option<string> {
    if unit in t && lock in t[unit] then Some(t[unit][lock]) else None
  }

  function SetEntry(t: Table, unit: string, lock: string, stamp: string): (t': Table)
    ensures forall u, l :: Entry(t', u, l) ==
                           if u == unit && l == lock then Some(stamp) else Entry(t, u, l)
    ensures t'.Keys == t.Keys + {unit}
  {
    t[unit := RowOf(t, unit)[lock := stamp]]
  }

  function DropEntry(t: Table, unit: string, lock: string): (t': Table)
    requires unit in t
    ensures forall u, l :: Entry(t', u, l) ==
                           if u == unit && l == lock then None else Entry(t, u, l)
    ensures t'.Keys == t.Keys
  {
    t[unit := t[unit] - {lock}]
  }

  /** Two tables with the same units and the same entries are the same table. */
  lemma SameTable(a: Table, b: Table)
    requires a.Keys == b.Keys
    requires forall u, l :: Entry(a, u, l) == Entry(b, u, l)
    ensures a == b
  {
    forall u | u in a ensures a[u] == b[u] {
      assert forall l :: (l in a[u]) == Entry(a, u, l).Some?;
      assert forall l :: (l in b[u]) == Entry(b, u, l).Some?;
      assert a[u].Keys == b[u].Keys;
      forall l | l in a[u] ensures a[u][l] == b[u][l] {
        assert Entry(a, u, l) == Entry(b, u, l);
      }
    }
  }

  // ---------------------------------------------------------------- holders and queue

  /** A unit is inside a lock when its own request carries the stamp recorded by the leader. */
  predicate IsGranted(requests: Table, grants: Table, unit: string, lock: string) {
    && Entry(requests, unit, lock).Some?
    && Entry(requests, unit, lock).value != ""
    && Entry(grants, unit, lock) == Entry(requests, unit, lock)
  }

  function Holders(grants: Table, lock: string): set<string> {
    set u | u in grants && lock in grants[u]
  }

  function Tickets(requests: Table, lock: string, granted: set<string>): set<Ticket> {
    set u | u in requests && u !in granted && lock in requests[u] :: Ticket(requests[u][lock], u)
  }

  function UnitsOf(q: seq<Ticket>): (r: seq<string>)
    ensures |r| == |q| && forall i :: 0 <= i < |q| ==> r[i] == q[i].unit
  {
    seq(|q|, i requires 0 <= i < |q| => q[i].unit)
  }

  /** Units waiting for the lock, earliest stamp first. */
  function Queue(requests: Table, lock: string, granted: set<string>): seq<string> {
    UnitsOf(Sorted(Tickets(requests, lock, granted)))
  }

  lemma QueueMembers(requests: Table, lock: string, granted: set<string>, unit: string)
    ensures unit in Queue(requests, lock, granted)
            <==> unit !in granted && Entry(requests, unit, lock).Some?
  {
    var s := Tickets(requests, lock, granted);
    SortedIsOrdered(s);
    if unit in Queue(requests, lock, granted) {
      var i :| 0 <= i < |Sorted(s)| && Sorted(s)[i].unit == unit;
      assert Sorted(s)[i] in s;
    }
    if unit !in granted && Entry(requests, unit, lock).Some? {
      var t := Ticket(requests[unit][lock], unit);
      assert t in s && t in Sorted(s);
      var i :| 0 <= i < |Sorted(s)| && Sorted(s)[i] == t;
      assert UnitsOf(Sorted(s))[i] == unit;
    }
  }

  /** The queue is in the order of stamps, equal stamps in the order of names, and nobody is in it twice. */
  lemma QueueIsOrdered(requests: Table, lock: string, granted: set<string>, i: nat, j: nat)
    requires i < j < |Queue(requests, lock, granted)|
    ensures var q := Queue(requests, lock, granted);
            && q[i] != q[j] && Entry(requests, q[i], lock).Some? && Entry(requests, q[j], lock).Some?
            && var a, b := Entry(requests, q[i], lock).value, Entry(requests, q[j], lock).value;
               Less(a, b) || (a == b && Less(q[i], q[j]))
  {
    var s := Tickets(requests, lock, granted);
    SortedIsOrdered(s);
    var a, b := Sorted(s)[i], Sorted(s)[j];
    assert a in Sorted(s) && b in Sorted(s);
    assert a in s && b in s && Before(a, b);
    BeforeIrreflexive(a);
  }

  /** `unit` asked for `lock`, and nobody's request for it sorts earlier. */
  ghost predicate IsHead(requests: Table, lock: string, unit: string) {
    && Entry(requests, unit, lock).Some?
    && forall v :: Entry(requests, v, lock).Some? && v != unit ==>
                     Before(Ticket(Entry(requests, unit, lock).value, unit),
                            Ticket(Entry(requests, v, lock).value, v))
  }

  lemma HeadIsUnique(requests: Table, lock: string, u: string, v: string)
    requires IsHead(requests, lock, u) && IsHead(requests, lock, v)
    ensures u == v
  {
    if u != v {
      BeforeAsymmetric(Ticket(Entry(requests, u, lock).value, u), Ticket(Entry(requests, v, lock).value, v));
    }
  }

  lemma QueueHead(requests: Table, lock: string, unit: string)
    requires unit in Queue(requests, lock, {})
    ensures unit == Queue(requests, lock, {})[0] <==> IsHead(requests, lock, unit)
  {
    var s := Tickets(requests, lock, {});
    QueueMembers(requests, lock, {}, unit);
    SortedIsOrdered(s);
    SortedHead(s);
    var h := Sorted(s)[0];
    assert Queue(requests, lock, {})[0] == h.unit;
    assert h in s;
    forall v | Entry(requests, v, lock).Some? && v != h.unit
      ensures Before(h, Ticket(Entry(requests, v, lock).value, v))
    {
      assert Ticket(requests[v][lock], v) in s;
    }
    assert IsHead(requests, lock, h.unit);
    if IsHead(requests, lock, unit) {
      HeadIsUnique(requests, lock, unit, h.unit);
    }
  }

  /** Some unit asked for the lock, so the queue has a head. */
  lemma HeadExists(requests: Table, lock: string, unit: string) returns (head: string)
    requires Entry(requests, unit, lock).Some?
    ensures IsHead(requests, lock, head)
  {
    QueueMembers(requests, lock, {}, unit);
    head := Queue(requests, lock, {})[0];
    QueueMembers(requests, lock, {}, head);
    QueueHead(requests, lock, head);
  }

  // ---------------------------------------------------------------- the leader's decision

  /** The leader gives the lock to a unit that waits for it and that the policy admits. */
  predicate Admits(policy: Policy, requests: Table, grants: Table, lock: string, unit: string) {
    var granted := Holders(grants, lock);
    && unit in Queue(requests, lock, granted)
    && policy(lock, unit, granted, Queue(requests, lock, granted))
  }

  function AfterGrant(policy: Policy, requests: Table, grants: Table, lock: string, unit: string): Table {
    if Admits(policy, requests, grants, lock, unit) && Entry(requests, unit, lock).Some?
    then SetEntry(grants, unit, lock, Entry(requests, unit, lock).value)
    else grants
  }

  /** The policy of `Serial`: the head of the queue, and only when nobody holds the lock. */
  function SerialDefaultGrant(lock: string, unit: string, granted: set<string>, queue: seq<string>): bool {
    queue != [] && unit == queue[0] && granted == {}
  }

  ghost predicate IsSerial(policy: Policy) {
    forall l, u, g, q :: u in q ==> (policy(l, u, g, q) <==> SerialDefaultGrant(l, u, g, q))
  }

  lemma SerialAdmits(policy: Policy, requests: Table, grants: Table, lock: string, unit: string)
    requires IsSerial(policy)
    ensures Admits(policy, requests, grants, lock, unit)
            <==> Holders(grants, lock) == {} && IsHead(requests, lock, unit)
  {
    var granted := Holders(grants, lock);
    QueueMembers(requests, lock, granted, unit);
    if granted == {} && unit in Queue(requests, lock, granted) {
      QueueHead(requests, lock, unit);
    }
  }

  // ---------------------------------------------------------------- handling at hook start

  /** No recorded grant differs from its unit's current request. */
  ghost predicate Current(requests: Table, grants: Table) {
    forall u, l :: Entry(grants, u, l).Some? ==> Entry(requests, u, l) == Entry(grants, u, l)
  }

  ghost predicate Exclusive(grants: Table) {
    forall u, v, l :: Entry(grants, u, l).Some? && Entry(grants, v, l).Some? ==> u == v
  }

  predicate Stale(requests: Table, grants: Table, unit: string, lock: string) {
    Entry(grants, unit, lock).Some? && Entry(requests, unit, lock) != Entry(grants, unit, lock)
  }

  /** The grants that survive the leader's clean-up: exactly those still requested as recorded. */
  function Surviving(requests: Table, grants: Table): (r: Table)
    ensures r.Keys == grants.Keys
    ensures forall u, l :: Entry(r, u, l) ==
                           if Stale(requests, grants, u, l) then None else Entry(grants, u, l)
  {
    map u | u in grants :: map l | l in grants[u] && !Stale(requests, grants, u, l) :: grants[u][l]
  }

  /** Under Serial, `unit` is the one to receive `lock` once `grants` has been cleaned up. */
  ghost predicate Wins(requests: Table, grants: Table, unit: string, lock: string) {
    Holders(grants, lock) == {} && IsHead(requests, lock, unit)
  }

  ghost predicate WinsSome(requests: Table, grants: Table, done: set<(string, string)>, unit: string) {
    exists l :: (unit, l) in done && Wins(requests, grants, unit, l)
  }

  /** `after` is `grants` plus every win among the pairs in `done`, and nothing else. */
  ghost predicate SerialAfter(requests: Table, grants: Table, done: set<(string, string)>, after: Table) {
    && (forall u, l :: Entry(after, u, l) ==
                       if (u, l) in done && Wins(requests, grants, u, l)
                       then Entry(requests, u, l) else Entry(grants, u, l))
    && (forall u :: u in after <==> u in grants || WinsSome(requests, grants, done, u))
  }

  function Pairs(requests: Table): (r: set<(string, string)>)
    ensures forall u, l :: (u, l) in r <==> Entry(requests, u, l).Some?
  {
    set u, l | u in requests && l in requests[u] :: (u, l)
  }

  /** The whole of `handle` for Serial: clean up, then every requested lock without a holder
      goes to the head of its queue. */
  ghost predicate SerialHandled(requests: Table, grants: Table, after: Table) {
    SerialAfter(requests, Surviving(requests, grants), Pairs(requests), after)
  }

  ghost function OutcomeRow(requests: Table, kept: Table, u: string): (row: Row)
    ensures forall l :: (if l in row then Some(row[l]) else None) ==
                        if Wins(requests, kept, u, l) then Entry(requests, u, l) else Entry(kept, u, l)
  {
    map l | l in RowOf(kept, u).Keys + RowOf(requests, u).Keys
            && (l in RowOf(kept, u) || Wins(requests, kept, u, l)) ::
      if l in RowOf(requests, u) && Wins(requests, kept, u, l) then requests[u][l] else RowOf(kept, u)[l]
  }

  /** The table that `SerialHandled` describes. */
  ghost function SerialOutcome(requests: Table, grants: Table): (after: Table)
    ensures SerialHandled(requests, grants, after)
  {
    OutcomeOfIsSerial(requests, Surviving(requests, grants));
    OutcomeOf(requests, Surviving(requests, grants))
  }

  ghost function OutcomeOf(requests: Table, kept: Table): (after: Table)
    ensures forall u :: u in after <==> u in kept || WinsSome(requests, kept, Pairs(requests), u)
    ensures forall u :: u in after ==> after[u] == OutcomeRow(requests, kept, u)
  {
    map u | u in kept.Keys + requests.Keys && (u in kept || WinsSome(requests, kept, Pairs(requests), u)) ::
      OutcomeRow(requests, kept, u)
  }

  lemma OutcomeOfIsSerial(requests: Table, kept: Table)
    ensures SerialAfter(requests, kept, Pairs(requests), OutcomeOf(requests, kept))
  {
    forall u, l ensures Entry(OutcomeOf(requests, kept), u, l) ==
                        if (u, l) in Pairs(requests) && Wins(requests, kept, u, l)
                        then Entry(requests, u, l) else Entry(kept, u, l)
    {
      if Wins(requests, kept, u, l) {
        assert (u, l) in Pairs(requests);
      }
    }
  }

  /** The order in which the dictionaries are walked cannot matter: the outcome is determined. */
  lemma SerialAfterUnique(requests: Table, grants: Table, done: set<(string, string)>, a: Table, b: Table)
    requires SerialAfter(requests, grants, done, a) && SerialAfter(requests, grants, done, b)
    ensures a == b
  {
    assert a.Keys == b.Keys;
    SameTable(a, b);
  }

  lemma HoldersEmpty(grants: Table, lock: string)
    ensures Holders(grants, lock) == {} <==> forall u :: Entry(grants, u, lock).None?
  {
    forall u ensures u in Holders(grants, lock) <==> Entry(grants, u, lock).Some? {
    }
    if Holders(grants, lock) != {} {
      var u :| u in Holders(grants, lock);
      assert Entry(grants, u, lock).Some?;
    }
  }

  /** While the walk is under way, a lock is free exactly until its queue's head has been served. */
  lemma FreeUntilHeadServed(requests: Table, grants: Table, done: set<(string, string)>,
                            now: Table, unit: string, lock: string)
    requires SerialAfter(requests, grants, done, now)
    requires IsHead(requests, lock, unit)
    ensures Holders(now, lock) == {} <==> Wins(requests, grants, unit, lock) && (unit, lock) !in done
  {
    HoldersEmpty(now, lock);
    HoldersEmpty(grants, lock);
    if Holders(now, lock) != {} && Holders(grants, lock) == {} && (unit, lock) !in done {
      var u :| Entry(now, u, lock).Some?;
      assert Wins(requests, grants, u, lock);
      HeadIsUnique(requests, lock, u, unit);
    }
    if Holders(grants, lock) != {} {
      var u :| Entry(grants, u, lock).Some?;
      assert !Wins(requests, grants, u, lock);
      assert Entry(now, u, lock).Some?;
    }
    if Wins(requests, grants, unit, lock) && (unit, lock) in done {
      assert Entry(now, unit, lock) == Entry(requests, unit, lock);
    }
  }

  /** One turn of the walk: offering `lock` to `unit` records exactly the win of that pair. */
  lemma SerialStep(policy: Policy, requests: Table, grants: Table, done: set<(string, string)>,
                   now: Table, unit: string, lock: string)
    requires IsSerial(policy)
    requires Entry(requests, unit, lock).Some?
    requires SerialAfter(requests, grants, done, now)
    ensures SerialAfter(requests, grants, done + {(unit, lock)}, AfterGrant(policy, requests, now, lock, unit))
  {
    var done' := done + {(unit, lock)};
    var wins := Wins(requests, grants, unit, lock) && (unit, lock) !in done;
    assert Admits(policy, requests, now, lock, unit) <==> wins by {
      SerialAdmits(policy, requests, now, lock, unit);
      if IsHead(requests, lock, unit) {
        FreeUntilHeadServed(requests, grants, done, now, unit, lock);
      }
    }
    AddWin(requests, grants, done, now, unit, lock, AfterGrant(policy, requests, now, lock, unit));
  }

  lemma AddWin(requests: Table, grants: Table, done: set<(string, string)>,
               now: Table, unit: string, lock: string, next: Table)
    requires Entry(requests, unit, lock).Some?
    requires SerialAfter(requests, grants, done, now)
    requires next == if Wins(requests, grants, unit, lock) && (unit, lock) !in done
                     then SetEntry(now, unit, lock, Entry(requests, unit, lock).value) else now
    ensures SerialAfter(requests, grants, done + {(unit, lock)}, next)
  {
  }

  lemma SerialOutcomeEntries(requests: Table, grants: Table)
    ensures Current(requests, SerialOutcome(requests, grants))
    ensures forall u, l :: Entry(grants, u, l).Some? && !Stale(requests, grants, u, l)
                           ==> Entry(SerialOutcome(requests, grants), u, l) == Entry(grants, u, l)
    ensures Exclusive(grants) ==> Exclusive(SerialOutcome(requests, grants))
  {
    var kept := Surviving(requests, grants);
    var after := SerialOutcome(requests, grants);
    forall u, l | Entry(kept, u, l).Some? ensures Entry(after, u, l) == Entry(grants, u, l) {
      HoldersEmpty(kept, l);
    }
    if Exclusive(grants) {
      forall u, v, l | Entry(after, u, l).Some? && Entry(after, v, l).Some? ensures u == v {
        HoldersEmpty(kept, l);
        if Entry(kept, u, l).None? && Entry(kept, v, l).None? {
          HeadIsUnique(requests, l, u, v);
        }
      }
    }
  }

  /** Handling leaves no requested lock without a holder. */
  lemma OutcomeHolder(requests: Table, grants: Table, unit: string, lock: string) returns (w: string)
    requires Entry(requests, unit, lock).Some?
    ensures Entry(SerialOutcome(requests, grants), w, lock).Some?
  {
    var kept := Surviving(requests, grants);
    assert SerialHandled(requests, grants, SerialOutcome(requests, grants));
    HoldersEmpty(kept, lock);
    if Holders(kept, lock) != {} {
      w :| Entry(kept, w, lock).Some?;
      assert !Wins(requests, kept, w, lock);
    } else {
      w := HeadExists(requests, lock, unit);
      assert (w, lock) in Pairs(requests) && Wins(requests, kept, w, lock);
    }
  }
}
