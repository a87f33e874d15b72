/**
  One hook as a process: the callbacks run at its start and at its successful end, and what the
  coordinator's callbacks publish. `HookIsRun` ties it to the protocol's steps.
 */
module Hooks {
  import opened Wrappers
  import opened LockTables
  import opened Coordinator
  import opened MutualExclusion
  import opened Protocol

  /** The coordinator's four callbacks; `Foreign` stands for anything other code registers, which
      does not touch the coordinator. */
  datatype Callback = Initialize | HandleRequests | SaveState | ReleaseGranted | Foreign(id: nat)

  /** What the hook body does: ask for a lock, handle again, offer a lock to a unit, or register a callback
      for the end. */
  datatype Action =
    | Ask(lock: string, now: string)
    | Rehandle
    | Offer(lock: string, to: string)
    | RegisterAtExit(id: nat)

  datatype Ending = Returns | ExitZero | ExitNonZero | Raises

  predicate AllForeign(cs: seq<Callback>) {
    forall i :: 0 <= i < |cs| ==> cs[i].Foreign?
  }

  function Reversed<T>(s: seq<T>): (r: seq<T>)
    ensures |r| == |s| && forall i :: 0 <= i < |s| ==> r[i] == s[|s| - 1 - i]
  {
    if s == [] then [] else Reversed(s[1..]) + [s[0]]
  }

  /** The view after one action, and after all of the body's. */
  ghost function ActView(v: View, unit: string, action: Action): View {
    match action
    case Ask(lock, now) => AcquireView(v, unit, lock, now)
    case Rehandle => HandleView(v)
    case Offer(lock, to) => GrantView(v, lock, to)
    case RegisterAtExit(_) => v
  }

  ghost function ActedView(v: View, unit: string, actions: seq<Action>): View {
    if actions == [] then v
    else ActView(ActedView(v, unit, actions[..|actions| - 1]), unit, actions[|actions| - 1])
  }

  function Registered(actions: seq<Action>): (cs: seq<Callback>)
    ensures AllForeign(cs)
  {
    if actions == [] then []
    else
      var rest := Registered(actions[..|actions| - 1]);
      var last := actions[|actions| - 1];
      if last.RegisterAtExit? then rest + [Foreign(last.id)] else rest
  }

  predicate Stamps(actions: seq<Action>) {
    forall i :: 0 <= i < |actions| && actions[i].Ask? ==> actions[i].now != ""
  }

  /** What an action is told in this view: `acquire` and `grant` are told something. */
  function AnswerTo(v: View, unit: string, action: Action): Option<bool> {
    match action
    case Ask(lock, now) => Some(Told(v, unit, lock, now))
    case Offer(lock, to) => Some(v.leader && Entry(GrantView(v, lock, to).grants, to, lock).Some?)
    case _ => None
  }

  /** What it should be told: whether the unit is granted the lock once the action is done, which for an
      offer only a leader can say. */
  ghost function Truth(v: View, unit: string, action: Action): Option<bool> {
    var w := ActView(v, unit, action);
    match action
    case Ask(lock, _) => Some(IsGranted(w.requests, w.grants, unit, lock))
    case Offer(lock, to) => Some(w.leader && IsGranted(w.requests, w.grants, to, lock))
    case _ => None
  }

  /** The answers the body gets, and the answers it should get. */
  ghost function AnswersTo(v: View, unit: string, actions: seq<Action>): seq<Option<bool>> {
    if actions == [] then []
    else
      var rest, last := actions[..|actions| - 1], actions[|actions| - 1];
      AnswersTo(v, unit, rest) + [AnswerTo(ActedView(v, unit, rest), unit, last)]
  }

  ghost function Truths(v: View, unit: string, actions: seq<Action>): seq<Option<bool>> {
    if actions == [] then []
    else
      var rest, last := actions[..|actions| - 1], actions[|actions| - 1];
      Truths(v, unit, rest) + [Truth(ActedView(v, unit, rest), unit, last)]
  }

  lemma {:induction false} TruthAt(v: View, unit: string, actions: seq<Action>, i: nat)
    requires i < |actions|
    ensures |Truths(v, unit, actions)| == |actions|
    ensures Truths(v, unit, actions)[i] == Truth(ActedView(v, unit, actions[..i]), unit, actions[i])
    decreases |actions|
  {
    var rest := actions[..|actions| - 1];
    if i < |rest| {
      TruthAt(v, unit, rest, i);
      assert rest[..i] == actions[..i];
    } else if rest != [] {
      TruthAt(v, unit, rest, 0);
    }
  }

  /** The view of a leader whose grants are current and whose requests carry real stamps. */
  ghost predicate Handled(v: View) {
    v.leader ==> Current(v.requests, v.grants) && Stamped(v.requests)
  }

  class HookProcess {
    const coordinator: Coordinator
    const leaderData: Option<Table>   // what leader-get answers
    const peers: set<string>          // related units
    const published: Table            // what relation-get answers, for units that published something
    const localState: Row             // the local state file

    var atStart: seq<Callback>
    var atExit: seq<Callback>
    var initialized: bool
    var ran: seq<Callback>            // every callback, in the order it was called

    var leaderWrite: Option<Table>
    var peerWrite: Option<Row>
    var localWrite: Option<Row>

    /** A process in which a Serial coordinator is created; other code has registered callbacks
        before and after it. */
    constructor (localUnit: string, leader: bool, hasPeers: bool, leaderData: Option<Table>, peers: set<string>,
                 published: Table, localState: Row, before: seq<Callback>, after: seq<Callback>, exits: seq<Callback>)
      requires AllForeign(before) && AllForeign(after) && AllForeign(exits)
      ensures fresh(coordinator) && coordinator.localUnit == localUnit && coordinator.leader == leader
      ensures coordinator.hasPeerRelation == hasPeers && coordinator.policy == SerialDefaultGrant
      ensures this.leaderData == leaderData && this.peers == peers
      ensures this.published == published && this.localState == localState
      ensures atStart == before + [Initialize, HandleRequests] + after && atExit == exits
      ensures !initialized && ran == [] && leaderWrite == None && peerWrite == None && localWrite == None
    {
      coordinator := new Coordinator(localUnit, leader, hasPeers, SerialDefaultGrant);
      this.leaderData, this.peers, this.published, this.localState := leaderData, peers, published, localState;
      atStart, atExit := before + [Initialize, HandleRequests] + after, exits;
      initialized, ran := false, [];
      leaderWrite, peerWrite, localWrite := None, None, None;
    }

    ghost function Visible(): Table {
      map u | u in published && u in peers + {coordinator.localUnit} :: published[u]
    }

    ghost function Seen(): Table {
      if leaderData.Some? then leaderData.value else map[]
    }

    ghost function Loaded(): View {
      LoadedView(coordinator.hasPeerRelation, coordinator.leader, coordinator.localUnit, Visible(), localState, Seen())
    }

    ghost predicate Shows(v: View)
      reads coordinator
    {
      v == View(coordinator.leader, coordinator.requests, coordinator.grants) && coordinator.Valid()
    }

    /** Calling one callback. `initialize` registers the two that run at the end: first the one that
        saves, then the one that releases. */
    method Call(c: Callback)
      requires initialized ==> coordinator.Valid()
      requires !c.Initialize? && !c.Foreign? ==> initialized
      requires coordinator.policy == SerialDefaultGrant
      modifies this, coordinator
      ensures ran == old(ran) + [c]
      ensures atStart == old(atStart)
      ensures atExit == old(atExit) + if c.Initialize? && !old(initialized) then [SaveState, ReleaseGranted] else []
      ensures initialized == (old(initialized) || c.Initialize?)
      ensures initialized ==> coordinator.Valid()
      ensures c.Initialize? && !old(initialized) ==>
                && coordinator.grants == Seen()
                && coordinator.requests == LoadedView(coordinator.hasPeerRelation, false, coordinator.localUnit,
                                                      Visible(), localState, Seen()).requests
      ensures c.HandleRequests? ==>
                && coordinator.requests == old(coordinator.requests)
                && coordinator.grants == if coordinator.leader
                                         then SerialOutcome(old(coordinator.requests), old(coordinator.grants))
                                         else old(coordinator.grants)
      ensures c.ReleaseGranted? ==>
                && coordinator.grants == old(coordinator.grants)
                && coordinator.requests == old(coordinator.requests)[coordinator.localUnit :=
                     ReleasedRow(old(coordinator.requests), old(coordinator.grants), coordinator.localUnit)]
      ensures c.SaveState? ==>
                && leaderWrite == (if coordinator.leader then Some(old(coordinator.grants)) else None)
                && peerWrite == (if coordinator.hasPeerRelation
                                 then Some(old(coordinator.requests)[coordinator.localUnit]) else None)
                && localWrite == (if coordinator.hasPeerRelation
                                  then None else Some(old(coordinator.requests)[coordinator.localUnit]))
      ensures !c.SaveState? ==> leaderWrite == old(leaderWrite) && peerWrite == old(peerWrite)
                                && localWrite == old(localWrite)
      ensures c.Foreign? || c.SaveState? || (c.Initialize? && old(initialized)) ==>
                coordinator.requests == old(coordinator.requests) && coordinator.grants == old(coordinator.grants)
    {
      ran := ran + [c];
      match c {
        case Initialize =>
          if !initialized {
            coordinator.LoadState(leaderData, peers, published, localState);
            atExit := atExit + [SaveState, ReleaseGranted];
            initialized := true;
          }
        case HandleRequests =>
          ghost var before := coordinator.grants;
          coordinator.Handle();
          if coordinator.leader {
            SerialAfterUnique(coordinator.requests, Surviving(coordinator.requests, before),
                              Pairs(coordinator.requests), coordinator.grants,
                              SerialOutcome(coordinator.requests, before));
          }
        case ReleaseGranted =>
          coordinator.ReleaseGranted();
        case SaveState =>
          leaderWrite, peerWrite, localWrite := coordinator.SaveState();
        case Foreign(_) =>
      }
    }

    /** `_run_atstart`: first registered, first called. */
    method RunAtStart(ghost before: seq<Callback>, ghost after: seq<Callback>)
      requires coordinator.policy == SerialDefaultGrant && !initialized
      requires AllForeign(before) && AllForeign(after)
      requires atStart == before + [Initialize, HandleRequests] + after
      modifies this, coordinator
      ensures initialized && Shows(Loaded())
      ensures ran == old(ran) + old(atStart)
      ensures atStart == [] && atExit == old(atExit) + [SaveState, ReleaseGranted]
      ensures leaderWrite == old(leaderWrite) && peerWrite == old(peerWrite) && localWrite == old(localWrite)
    {
      ghost var k := |before|;
      var i := 0;
      while i < |atStart|
        invariant 0 <= i <= |atStart| && atStart == old(atStart)
        invariant ran == old(ran) + atStart[..i]
        invariant initialized <==> i > k
        invariant i > k ==> coordinator.Valid() && coordinator.requests == Loaded().requests
        invariant i == k + 1 ==> coordinator.grants == Seen()
        invariant i > k + 1 ==> coordinator.grants == Loaded().grants
        invariant atExit == old(atExit) + if i > k then [SaveState, ReleaseGranted] else []
        invariant leaderWrite == old(leaderWrite) && peerWrite == old(peerWrite) && localWrite == old(localWrite)
        decreases |atStart| - i
      {
        assert i < k ==> atStart[i] == before[i];
        assert i > k + 1 ==> atStart[i] == after[i - k - 2];
        Call(atStart[i]);
        i := i + 1;
      }
      atStart := [];
    }

    /** One action of the body. After handling, the answer of `acquire` is the truth. */
    method Act(action: Action, ghost v: View) returns (answer: Option<bool>)
      requires coordinator.policy == SerialDefaultGrant && Shows(v)
      requires action.Ask? ==> action.now != ""
      modifies this`atExit, coordinator
      ensures Shows(ActView(v, coordinator.localUnit, action))
      ensures atExit == old(atExit) + if action.RegisterAtExit? then [Foreign(action.id)] else []
      ensures answer == AnswerTo(v, coordinator.localUnit, action)
      ensures Handled(v) ==> Handled(ActView(v, coordinator.localUnit, action))
                             && answer == Truth(v, coordinator.localUnit, action)
    {
      match action {
        case Ask(lock, now) =>
          var told := coordinator.Acquire(lock, now);
          answer := Some(told);
        case Rehandle =>
          coordinator.Handle();
          answer := None;
        case Offer(lock, to) =>
          GrantKeepsCurrent(SerialDefaultGrant, v.requests, v.grants, lock, to);
          var told := coordinator.Grant(lock, to);
          answer := Some(told);
        case RegisterAtExit(id) =>
          atExit := atExit + [Foreign(id)];
          answer := None;
      }
    }

    /** The hook body and what it is told. */
    method RunBody(actions: seq<Action>) returns (answers: seq<Option<bool>>)
      requires coordinator.policy == SerialDefaultGrant && coordinator.Valid() && Stamps(actions)
      modifies this`atExit, coordinator
      ensures var v := old(View(coordinator.leader, coordinator.requests, coordinator.grants));
              && answers == AnswersTo(v, coordinator.localUnit, actions)
              && (Handled(v) ==> answers == Truths(v, coordinator.localUnit, actions))
      ensures Shows(ActedView(old(View(coordinator.leader, coordinator.requests, coordinator.grants)),
                              coordinator.localUnit, actions))
      ensures atExit == old(atExit) + Registered(actions)
    {
      ghost var start := View(coordinator.leader, coordinator.requests, coordinator.grants);
      ghost var unit := coordinator.localUnit;
      answers := [];
      for i := 0 to |actions|
        invariant answers == AnswersTo(start, unit, actions[..i])
        invariant Handled(start) ==> Handled(ActedView(start, unit, actions[..i]))
        invariant Handled(start) ==> answers == Truths(start, unit, actions[..i])
        invariant Shows(ActedView(start, coordinator.localUnit, actions[..i]))
        invariant atExit == old(atExit) + Registered(actions[..i])
      {
        assert actions[..i + 1][..i] == actions[..i];
        var answer := Act(actions[i], ActedView(start, unit, actions[..i]));
        answers := answers + [answer];
      }
      assert actions[..|actions|] == actions;
    }

    /** `_run_atexit`: last registered, first called; so the locks are released before the state is
        saved, and what is saved no longer asks for them. */
    method RunAtExit(ghost exits: seq<Callback>, ghost late: seq<Callback>, ghost v: View)
      requires coordinator.policy == SerialDefaultGrant && initialized && Shows(v)
      requires AllForeign(exits) && AllForeign(late)
      requires atExit == exits + [SaveState, ReleaseGranted] + late
      modifies this, coordinator
      ensures ran == old(ran) + Reversed(old(atExit)) && atExit == [] && atStart == old(atStart)
      ensures leaderWrite == if coordinator.leader then Some(v.grants) else None
      ensures peerWrite == if coordinator.hasPeerRelation
                           then Some(ReleasedRow(v.requests, v.grants, coordinator.localUnit)) else None
      ensures localWrite == if coordinator.hasPeerRelation
                            then None else Some(ReleasedRow(v.requests, v.grants, coordinator.localUnit))
    {
      ghost var k := |exits|;
      ghost var row := ReleasedRow(v.requests, v.grants, coordinator.localUnit);
      var callbacks := atExit;
      var i := |callbacks|;
      while i > 0
        invariant 0 <= i <= |callbacks| && callbacks == old(atExit) == atExit
        invariant ran == old(ran) + Reversed(callbacks)[..|callbacks| - i]
        invariant initialized && coordinator.Valid() && atStart == old(atStart)
        invariant coordinator.grants == v.grants
        invariant coordinator.requests == if i > k + 1 then v.requests else v.requests[coordinator.localUnit := row]
        invariant i <= k ==>
                    && leaderWrite == (if coordinator.leader then Some(v.grants) else None)
                    && peerWrite == (if coordinator.hasPeerRelation then Some(row) else None)
                    && localWrite == (if coordinator.hasPeerRelation then None else Some(row))
        decreases i
      {
        i := i - 1;
        assert i < k ==> callbacks[i] == exits[i];
        assert i > k + 1 ==> callbacks[i] == late[i - k - 2];
        Call(callbacks[i]);
      }
      atExit := [];
    }

    lemma LoadedIsHandled()
      ensures (coordinator.leader ==> Stamped(Loaded().requests)) ==> Handled(Loaded())
    {
      SerialOutcomeEntries(Loaded().requests, Seen());
    }

    /** `Hooks.execute`. A hook succeeds when its body returns or exits with code zero; only then do
        the callbacks at exit run, so a failed hook publishes nothing. On success the requests published
        are the loaded ones plus the new ones minus exactly those granted in this hook. Whatever the
        ending, the body is told the truth about its locks. */
    method Execute(registered: bool, actions: seq<Action>, ending: Ending, ghost before: seq<Callback>,
                   ghost after: seq<Callback>, ghost exits: seq<Callback>)
      returns (success: bool, answers: seq<Option<bool>>)
      requires coordinator.policy == SerialDefaultGrant && !initialized && ran == []
      requires leaderWrite == None && peerWrite == None && localWrite == None
      requires AllForeign(before) && AllForeign(after) && AllForeign(exits) && Stamps(actions)
      requires atStart == before + [Initialize, HandleRequests] + after && atExit == exits
      modifies this, coordinator
      ensures success <==> registered && (ending.Returns? || ending.ExitZero?)
      ensures !registered ==> answers == []
      ensures registered ==> answers == AnswersTo(Loaded(), coordinator.localUnit, actions)
      ensures registered && (coordinator.leader ==> Stamped(Loaded().requests))
              ==> answers == Truths(Loaded(), coordinator.localUnit, actions)
      ensures !success ==> leaderWrite == None && peerWrite == None && localWrite == None && ran == old(atStart)
      ensures success ==>
                var v := ActedView(Loaded(), coordinator.localUnit, actions);
                var row := ReleasedRow(v.requests, v.grants, coordinator.localUnit);
                && leaderWrite == (if coordinator.leader then Some(v.grants) else None)
                && peerWrite == (if coordinator.hasPeerRelation then Some(row) else None)
                && localWrite == (if coordinator.hasPeerRelation then None else Some(row))
                && ran == old(atStart) + Reversed(exits + [SaveState, ReleaseGranted] + Registered(actions))
    {
      RunAtStart(before, after);
      if !registered {
        return false, [];
      }
      LoadedIsHandled();
      answers := RunBody(actions);
      ghost var v := ActedView(Loaded(), coordinator.localUnit, actions);
      match ending {
        case Returns =>
          RunAtExit(exits, Registered(actions), v);
          success := true;
        case ExitZero =>
          RunAtExit(exits, Registered(actions), v);
          success := true;
        case ExitNonZero => success := false;
        case Raises => success := false;
      }
    }
  }

  /** Release comes before save in every successful hook, whatever else is registered. */
  lemma ReleasePrecedesSave(exits: seq<Callback>, late: seq<Callback>)
    requires AllForeign(exits) && AllForeign(late)
    ensures var order := Reversed(exits + [SaveState, ReleaseGranted] + late);
            forall i, j :: 0 <= i < |order| && 0 <= j < |order| && order[i] == ReleaseGranted && order[j] == SaveState
                           ==> i < j
  {
  }

  // ---------------------------------------------------------------- the hook as protocol steps

  function Steps(unit: string, actions: seq<Action>): seq<Step> {
    if actions == [] then []
    else Steps(unit, actions[..|actions| - 1]) + StepOf(unit, actions[|actions| - 1])
  }

  function StepOf(unit: string, action: Action): seq<Step> {
    match action
    case Ask(lock, now) => [Acquire(unit, lock, now)]
    case Rehandle => [Handle(unit)]
    case Offer(lock, to) => [Grant(unit, lock, to)]
    case RegisterAtExit(_) => []
  }

  /** The stamps the body's requests may be filed under. */
  function StampsOf(unit: string, actions: seq<Action>): set<(string, string, string)> {
    set i | 0 <= i < |actions| && actions[i].Ask? :: (unit, actions[i].lock, actions[i].now)
  }

  /** The environment's rule for stamps: the clock gives this unit a new one for the lock at every call. */
  predicate FreshStamps(drawn: set<(string, string, string)>, unit: string, actions: seq<Action>) {
    && Stamps(actions)
    && (forall i :: 0 <= i < |actions| && actions[i].Ask? ==> (unit, actions[i].lock, actions[i].now) !in drawn)
    && (forall i, j :: 0 <= i < j < |actions| && actions[i].Ask? && actions[j].Ask?
                       ==> actions[i].lock != actions[j].lock || actions[i].now != actions[j].now)
  }

  lemma {:induction false} RunSnoc(s: System, run: seq<Step>, step: Step)
    requires Legal(s, run) && Enabled(Run(s, run), step)
    ensures Legal(s, run + [step])
    ensures Run(s, run + [step]) == Apply(Run(s, run), step)
    decreases |run|
  {
    if run == [] {
      assert run + [step] == [step];
      assert [step][1..] == [];
    } else {
      assert (run + [step])[0] == run[0] && (run + [step])[1..] == run[1..] + [step];
      RunSnoc(Apply(s, run[0]), run[1..], step);
    }
  }

  /** The state of the protocol once the hook has done these actions: only its view and the stamps drawn
      have changed. */
  ghost predicate After(s: System, unit: string, actions: seq<Action>, s': System) {
    && unit in s.open
    && s' == s.(open := s.open[unit := ActedView(s.open[unit], unit, actions)], drawn := s'.drawn)
    && s'.drawn <= s.drawn + StampsOf(unit, actions)
  }

  /** With fresh stamps a hook's actions are legal steps. */
  lemma {:induction false} ActionsRun(s: System, unit: string, actions: seq<Action>)
    requires unit in s.open && FreshStamps(s.drawn, unit, actions)
    ensures Legal(s, Steps(unit, actions)) && After(s, unit, actions, Run(s, Steps(unit, actions)))
    decreases |actions|
  {
    if actions == [] {
      assert s.open[unit := s.open[unit]] == s.open;
    } else {
      var rest, last := actions[..|actions| - 1], actions[|actions| - 1];
      ActionsRun(s, unit, rest);
      var now := Run(s, Steps(unit, rest));
      if last.Ask? {
        StampIsFresh(s.drawn, unit, actions);
      }
      if last.RegisterAtExit? {
        assert Steps(unit, rest) + [] == Steps(unit, rest);
        StampsGrow(unit, actions);
      } else {
        RunSnoc(s, Steps(unit, rest), StepOf(unit, last)[0]);
        ActionIsStep(s, unit, actions, now);
      }
    }
  }

  lemma ActionIsStep(s: System, unit: string, actions: seq<Action>, now: System)
    requires actions != [] && !actions[|actions| - 1].RegisterAtExit?
    requires After(s, unit, actions[..|actions| - 1], now)
    requires Enabled(now, StepOf(unit, actions[|actions| - 1])[0])
    ensures After(s, unit, actions, Apply(now, StepOf(unit, actions[|actions| - 1])[0]))
  {
    var last := actions[|actions| - 1];
    StampsGrow(unit, actions);
    StepActs(now, unit, last);
    var next := Apply(now, StepOf(unit, last)[0]);
    assert next.open == s.open[unit := ActedView(s.open[unit], unit, actions)];
  }

  /** The step of an action changes its hook's view as the action does, and draws at most its stamp. */
  lemma StepActs(now: System, unit: string, action: Action)
    requires unit in now.open && !action.RegisterAtExit? && Enabled(now, StepOf(unit, action)[0])
    ensures var next := Apply(now, StepOf(unit, action)[0]);
            && next == now.(open := now.open[unit := ActView(now.open[unit], unit, action)], drawn := next.drawn)
            && next.drawn <= now.drawn + if action.Ask? then {(unit, action.lock, action.now)} else {}
  {
  }

  lemma StampIsFresh(drawn: set<(string, string, string)>, unit: string, actions: seq<Action>)
    requires actions != [] && actions[|actions| - 1].Ask? && FreshStamps(drawn, unit, actions)
    ensures var last := actions[|actions| - 1];
            last.now != "" && (unit, last.lock, last.now) !in drawn + StampsOf(unit, actions[..|actions| - 1])
  {
  }

  lemma StampsGrow(unit: string, actions: seq<Action>)
    requires actions != []
    ensures var last := actions[|actions| - 1];
            StampsOf(unit, actions) == StampsOf(unit, actions[..|actions| - 1])
                                       + if last.Ask? then {(unit, last.lock, last.now)} else {}
  {
    var rest := actions[..|actions| - 1];
    forall p | p in StampsOf(unit, rest) ensures p in StampsOf(unit, actions) {
      var i :| 0 <= i < |rest| && rest[i].Ask? && p == (unit, rest[i].lock, rest[i].now);
      assert actions[i] == rest[i];
    }
  }

  /** A hook of the class whose clock gives fresh stamps is a legal run of the protocol's steps: what
      `Execute` says is published is what the protocol publishes, which is all the hook asked for minus
      the locks it was inside; and a failed hook publishes nothing. */
  lemma HookIsRun(s: System, unit: string, peers: Table, seen: Table, actions: seq<Action>)
    requires Enabled(s, Start(unit, peers, seen)) && FreshStamps(s.drawn, unit, actions)
    ensures var s0 := Apply(s, Start(unit, peers, seen));
            Legal(s0, Steps(unit, actions)) &&
            var leader := s.leader == Some(unit);
            var v := ActedView(LoadedView(true, leader, unit, peers, map[], seen), unit, actions);
            var s' := Run(s0, Steps(unit, actions));
            && Enabled(s', Commit(unit)) && Enabled(s', Abort(unit))
            && s'.open[unit] == v
            && Apply(s', Commit(unit)).published == s.published[unit := ReleasedRow(v.requests, v.grants, unit)]
            && (forall l :: Entry(Apply(s', Commit(unit)).published, unit, l) ==
                            if Inside(s', unit, l) then None else Entry(v.requests, unit, l))
            && Apply(s', Commit(unit)).granted == (if v.leader then v.grants else s.granted)
            && Apply(s', Abort(unit)).published == s.published && Apply(s', Abort(unit)).granted == s.granted
  {
    var s0 := Apply(s, Start(unit, peers, seen));
    ActionsRun(s0, unit, actions);
    forall l {
      CommitPublishes(Run(s0, Steps(unit, actions)), unit, l);
    }
  }

  /** In every reachable state a leader's hook loads real stamps only, so what `Execute` tells its body is
      the truth without a premise. */
  lemma LoadedIsStamped(s: System, unit: string, peers: Table, seen: Table)
    requires Inv(s) && Enabled(s, Start(unit, peers, seen))
    ensures Handled(StartView(s.leader == Some(unit), unit, peers, seen))
  {
    if s.leader == Some(unit) {
      SerialOutcomeEntries(PeerRequests(peers, unit, map[]), seen);
      PeerEntries(s.published, unit);
      assert DrawnBy(s.published, s.drawn);
    }
  }
}
