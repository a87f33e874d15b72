/**
  Serial coordination as a distributed protocol. A step is one thing that can happen
  anywhere in the model: a unit joins or departs, leadership moves, a hook starts (load and
  handle), acquires a lock, handles again, offers a lock to a unit, ends well (release and save) or fails.

  The environment's rules are exactly the guards of `Enabled`:
   - a unit runs one hook at a time, and a departed unit runs none;
   - what a hook writes becomes visible when it ends well, and then at once;
   - a leader's hook starts from the committed grants and the committed requests of every unit;
     any other hook may see arbitrarily old grants and anything at all about its peers, but
     always its own committed requests;
   - leadership does not move while the old or the new leader is inside a hook;
   - a unit never draws the same stamp twice for the same lock, and never the empty one;
   - unit names are not reused.
 */
module Protocol {
  import opened Wrappers
  import opened LockTables
  import opened Coordinator

  /** What an open hook sees: its coordinator's two tables and whether its unit leads. */
  datatype View = View(leader: bool, requests: Table, grants: Table)

  datatype System = System(
    published: Table,                       // requests on the peer relation
    granted: Table,                         // grants in leadership storage
    past: set<Table>,                       // every content leadership storage ever had
    open: map<string, View>,                // the hooks now running, by unit
    leader: Option<string>,
    live: set<string>,
    known: set<string>,                     // units that ever joined
    drawn: set<(string, string, string)>)   // (unit, lock, stamp) of every request ever filed

  datatype Step =
    | Join(unit: string)
    | Depart(unit: string)
    | Elect(unit: string)
    | Start(unit: string, peers: Table, seen: Table)
    | Acquire(unit: string, lock: string, now: string)
    | Handle(unit: string)
    | Grant(unit: string, lock: string, to: string)
    | Commit(unit: string)
    | Abort(unit: string)

  function Initial(): System {
    System(map[], map[], {map[]}, map[], None, {}, {}, {})
  }

  predicate MustFile(v: View, unit: string, lock: string) {
    Entry(v.requests, unit, lock).None? || Entry(v.requests, unit, lock).value == ""
  }

  predicate Enabled(s: System, step: Step) {
    match step
    case Join(u) => u !in s.known
    case Depart(u) => u in s.live && u !in s.open
    case Elect(u) =>
      u in s.live && u !in s.open && (s.leader.Some? ==> s.leader.value !in s.open)
    case Start(u, peers, seen) =>
      && u in s.live && u !in s.open
      && (u in peers <==> u in s.published) && (u in peers ==> peers[u] == s.published[u])
      && (if s.leader == Some(u) then peers == s.published && seen == s.granted else seen in s.past)
    case Acquire(u, l, now) =>
      && u in s.open
      && (MustFile(s.open[u], u, l) ==> now != "" && (u, l, now) !in s.drawn)
    case Handle(u) => u in s.open
    case Grant(u, _, _) => u in s.open
    case Commit(u) => u in s.open
    case Abort(u) => u in s.open
  }

  /** The tables as `_load_state` and then `handle` leave them. */
  ghost function LoadedView(hasPeers: bool, leader: bool, unit: string, visible: Table,
                            localState: Row, seen: Table): View {
    var requests := if hasPeers then PeerRequests(visible, unit, localState) else map[unit := localState];
    View(leader, requests, if leader then SerialOutcome(requests, seen) else seen)
  }

  /** A hook's start in the protocol, where there is a peer relation and no local state. */
  ghost function StartView(leader: bool, unit: string, peers: Table, seen: Table): View {
    LoadedView(true, leader, unit, peers, map[], seen)
  }

  /** `acquire`. */
  function AcquireView(v: View, unit: string, lock: string, now: string): View {
    var requests := WithRequest(v.requests, unit, lock, now);
    View(v.leader, requests,
         if v.leader && !IsGranted(requests, v.grants, unit, lock)
         then AfterGrant(SerialDefaultGrant, requests, v.grants, lock, unit) else v.grants)
  }

  /** `handle`, called again by the hook. */
  ghost function HandleView(v: View): View {
    if v.leader then v.(grants := SerialOutcome(v.requests, v.grants)) else v
  }

  /** `grant`, called by the hook for any unit. */
  function GrantView(v: View, lock: string, to: string): View {
    if v.leader then v.(grants := AfterGrant(SerialDefaultGrant, v.requests, v.grants, lock, to)) else v
  }

  /** What `acquire` answers: the unit is in, or this is the leader and there is a grant for the unit. */
  predicate Told(v: View, unit: string, lock: string, now: string) {
    var w := AcquireView(v, unit, lock, now);
    IsGranted(w.requests, v.grants, unit, lock) || (w.leader && Entry(w.grants, unit, lock).Some?)
  }

  ghost function Apply(s: System, step: Step): System
    requires Enabled(s, step)
  {
    match step
    case Join(u) => s.(live := s.live + {u}, known := s.known + {u})
    case Depart(u) =>
      s.(live := s.live - {u}, published := s.published - {u},
         leader := if s.leader == Some(u) then None else s.leader)
    case Elect(u) => s.(leader := Some(u))
    case Start(u, peers, seen) =>
      s.(open := s.open[u := StartView(s.leader == Some(u), u, peers, seen)])
    case Acquire(u, l, now) =>
      s.(open := s.open[u := AcquireView(s.open[u], u, l, now)],
         drawn := if MustFile(s.open[u], u, l) then s.drawn + {(u, l, now)} else s.drawn)
    case Handle(u) => s.(open := s.open[u := HandleView(s.open[u])])
    case Grant(u, l, to) => s.(open := s.open[u := GrantView(s.open[u], l, to)])
    case Commit(u) =>
      var v := s.open[u];
      s.(published := s.published[u := ReleasedRow(v.requests, v.grants, u)],
         granted := if v.leader then v.grants else s.granted,
         past := if v.leader then s.past + {v.grants} else s.past,
         open := s.open - {u})
    case Abort(u) => s.(open := s.open - {u})
  }

  /** Every step of the run is enabled when its turn comes. */
  ghost predicate Legal(s: System, run: seq<Step>)
    decreases |run|
  {
    run == [] || (Enabled(s, run[0]) && Legal(Apply(s, run[0]), run[1..]))
  }

  ghost function Run(s: System, run: seq<Step>): System
    requires Legal(s, run)
    decreases |run|
  {
    if run == [] then s else Run(Apply(s, run[0]), run[1..])
  }

  /** The unit is in an open hook in which `granted` answers True for the lock. */
  ghost predicate Inside(s: System, unit: string, lock: string) {
    unit in s.open && IsGranted(s.open[unit].requests, s.open[unit].grants, unit, lock)
  }

  /** The unit's published request is the one the committed grant was given for. */
  ghost predicate Matches(s: System, unit: string, lock: string) {
    Entry(s.granted, unit, lock).Some? && Entry(s.published, unit, lock) == Entry(s.granted, unit, lock)
  }
}
