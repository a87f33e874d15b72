/**
  First come, first served: what a waiting unit may rely on under Serial coordination, over
  all runs. The waiting unit is `v`; its published request for `lock` carries the stamp `r`.
 */
module Fairness {
  import opened Wrappers
  import opened Lexicographic
  import opened LockTables
  import opened Coordinator
  import opened Protocol
  import opened MutualExclusion
  import opened Timestamps

  /** The request is published, and if a leader's hook is running it has seen it. */
  ghost predicate Seen(s: System, v: string, lock: string, r: string) {
    && Entry(s.published, v, lock) == Some(r)
    && forall u :: u in s.open && s.open[u].leader ==> Entry(s.open[u].requests, v, lock) == Some(r)
  }

  /** `v` neither uses up its request nor goes away in this step. */
  ghost predicate KeepsWaiting(s: System, step: Step, v: string, lock: string) {
    step != Depart(v) && !(step == Commit(v) && Inside(s, v, lock))
  }

  ghost predicate WaitsThrough(s: System, run: seq<Step>, v: string, lock: string)
    requires Legal(s, run)
    decreases |run|
  {
    run == [] || (KeepsWaiting(s, run[0], v, lock) && WaitsThrough(Apply(s, run[0]), run[1..], v, lock))
  }

  /** In this step a leader's hook gives the lock to `w`. */
  ghost predicate NewGrant(s: System, step: Step, w: string, lock: string)
    requires Enabled(s, step)
  {
    && (step.Start? || step.Acquire? || step.Handle? || step.Grant?)
    && var s' := Apply(s, step);
       var now := Entry(s'.open[step.unit].grants, w, lock);
       && s'.open[step.unit].leader
       && now.Some?
       && now != (if step.Start? then Entry(s.granted, w, lock) else Entry(s.open[step.unit].grants, w, lock))
  }

  ghost function NewStamp(s: System, step: Step, w: string, lock: string): string
    requires Enabled(s, step) && NewGrant(s, step, w, lock)
  {
    Entry(Apply(s, step).open[step.unit].grants, w, lock).value
  }

  lemma AcquireKeepsSeen(s: System, step: Step, v: string, lock: string, r: string)
    requires Inv(s) && Seen(s, v, lock, r) && step.Acquire? && Enabled(s, step)
    ensures Seen(Apply(s, step), v, lock, r)
  {
    StrayRowIsHarmless(s.open[step.unit].requests, step.unit, step.lock, step.now, v, lock);
    assert (v, lock, r) in s.drawn by { assert DrawnBy(s.published, s.drawn); }
  }

  lemma CommitKeepsSeen(s: System, step: Step, v: string, lock: string, r: string)
    requires Inv(s) && Seen(s, v, lock, r) && step.Commit? && Enabled(s, step)
    requires KeepsWaiting(s, step, v, lock)
    ensures Seen(Apply(s, step), v, lock, r)
  {
    if step.unit == v {
      assert Entry(s.open[v].requests, v, lock) == Some(r);
    }
  }

  lemma StepKeepsSeen(s: System, step: Step, v: string, lock: string, r: string)
    requires Inv(s) && Seen(s, v, lock, r)
    requires Enabled(s, step) && KeepsWaiting(s, step, v, lock)
    ensures Seen(Apply(s, step), v, lock, r)
  {
    match step
    case Acquire(_, _, _) => AcquireKeepsSeen(s, step, v, lock, r);
    case Commit(_) => CommitKeepsSeen(s, step, v, lock, r);
    case _ =>
  }

  /** A new grant goes to the head of the queue the leader's hook knows. */
  lemma NewGrantIsHead(s: System, step: Step, w: string, lock: string)
    requires Inv(s) && Enabled(s, step) && NewGrant(s, step, w, lock)
    ensures var v := Apply(s, step).open[step.unit];
            IsHead(v.requests, lock, w) && Entry(v.requests, w, lock) == Entry(v.grants, w, lock)
  {
    match step
    case Start(u, peers, seen) =>
      OutcomeIsHead(PeerRequests(peers, u, map[]), s.granted, w, lock);
    case Acquire(u, l, now) =>
      var requests := WithRequest(s.open[u].requests, u, l, now);
      SerialAdmits(SerialDefaultGrant, requests, s.open[u].grants, l, u);
    case Handle(u) => OutcomeIsHead(s.open[u].requests, s.open[u].grants, w, lock);
    case Grant(u, l, to) => SerialAdmits(SerialDefaultGrant, s.open[u].requests, s.open[u].grants, l, to);
  }

  lemma OutcomeIsHead(requests: Table, grants: Table, w: string, lock: string)
    requires Entry(SerialOutcome(requests, grants), w, lock).Some?
    requires Entry(SerialOutcome(requests, grants), w, lock) != Entry(grants, w, lock)
    ensures IsHead(requests, lock, w) && Entry(requests, w, lock) == Entry(SerialOutcome(requests, grants), w, lock)
  {
    assert SerialHandled(requests, grants, SerialOutcome(requests, grants));
    assert Entry(Surviving(requests, grants), w, lock) != Entry(SerialOutcome(requests, grants), w, lock)
           || Wins(requests, Surviving(requests, grants), w, lock);
  }

  /** No overtaking, one step: a leader that has seen the request serves nobody who came later. */
  lemma StepServesEarlier(s: System, step: Step, v: string, lock: string, r: string, w: string)
    requires Inv(s) && Seen(s, v, lock, r)
    requires Enabled(s, step) && NewGrant(s, step, w, lock) && w != v
    ensures Before(Ticket(NewStamp(s, step, w, lock), w), Ticket(r, v))
  {
    StepKeepsSeen(s, step, v, lock, r);
    NewGrantIsHead(s, step, w, lock);
    assert Entry(Apply(s, step).open[step.unit].requests, v, lock) == Some(r);
  }

  lemma {:induction false} RunKeepsSeen(s: System, run: seq<Step>, v: string, lock: string, r: string)
    requires Inv(s) && Seen(s, v, lock, r)
    requires Legal(s, run) && WaitsThrough(s, run, v, lock)
    ensures Inv(Run(s, run)) && Seen(Run(s, run), v, lock, r)
    decreases |run|
  {
    if run != [] {
      StepKeepsInv(s, run[0]);
      StepKeepsSeen(s, run[0], v, lock, r);
      RunKeepsSeen(Apply(s, run[0]), run[1..], v, lock, r);
    }
  }

  /** No overtaking: from the moment the request has been seen until it is used up, every unit
      that is given the lock asked for it earlier. */
  lemma NoOvertaking(s: System, run: seq<Step>, step: Step, v: string, lock: string, r: string, w: string)
    requires Inv(s) && Seen(s, v, lock, r)
    requires Legal(s, run) && WaitsThrough(s, run, v, lock)
    requires Enabled(Run(s, run), step) && NewGrant(Run(s, run), step, w, lock) && w != v
    ensures Before(Ticket(NewStamp(Run(s, run), step, w, lock), w), Ticket(r, v))
  {
    RunKeepsSeen(s, run, v, lock, r);
    StepServesEarlier(Run(s, run), step, v, lock, r, w);
  }

  /** In terms of time: if the waiting request was stamped at `asked`, whoever is given the lock
      meanwhile asked before that, or at the same instant under an earlier name. */
  lemma NoOvertakingInTime(s: System, run: seq<Step>, step: Step, v: string, lock: string, asked: Time,
                           w: string, other: Time)
    requires IsTime(asked) && IsTime(other)
    requires Inv(s) && Seen(s, v, lock, Format(asked))
    requires Legal(s, run) && WaitsThrough(s, run, v, lock)
    requires Enabled(Run(s, run), step) && NewGrant(Run(s, run), step, w, lock) && w != v
    requires NewStamp(Run(s, run), step, w, lock) == Format(other)
    ensures Earlier(other, asked) || (other == asked && Less(w, v))
  {
    NoOvertaking(s, run, step, v, lock, Format(asked), w);
    TicketOrder(other, w, asked, v);
  }

  // ---------------------------------------------------------------- bounded waiting

  /** The request a unit stands by: its open hook's if it is in one, else the published one. */
  ghost function Own(s: System, w: string, lock: string): Option<string> {
    if w in s.open then Entry(s.open[w].requests, w, lock) else Entry(s.published, w, lock)
  }

  /** The grants as the leader's open hook has them. */
  ghost predicate HeldInLeaderHook(s: System, w: string, lock: string, stamp: string) {
    && s.leader.Some? && s.leader.value in s.open
    && Entry(s.open[s.leader.value].grants, w, lock) == Some(stamp)
  }

  /** Another unit that may still be served before `v`: it asked earlier, or it holds the lock. */
  ghost predicate Rival(s: System, v: string, lock: string, r: string, w: string) {
    && w != v
    && Own(s, w, lock).Some?
    && var t := Own(s, w, lock).value;
       Before(Ticket(t, w), Ticket(r, v)) || Entry(s.granted, w, lock) == Some(t) || HeldInLeaderHook(s, w, lock, t)
  }

  ghost function Rivals(s: System, v: string, lock: string, r: string): (ws: set<string>)
    ensures forall w :: w in ws <==> Rival(s, v, lock, r, w)
  {
    set w | w in s.published.Keys + s.open.Keys && Rival(s, v, lock, r, w)
  }

  /** Clocks agree: a stamp drawn by another unit from now on sorts after the waiting request. */
  predicate DrawsLater(s: System, step: Step, v: string, lock: string, r: string) {
    step.Acquire? && step.lock == lock && step.unit != v
    && step.unit in s.open && MustFile(s.open[step.unit], step.unit, lock)
    ==> Before(Ticket(r, v), Ticket(step.now, step.unit))
  }

  ghost predicate Orderly(s: System, run: seq<Step>, v: string, lock: string, r: string)
    requires Legal(s, run)
    decreases |run|
  {
    run == [] || (DrawsLater(s, run[0], v, lock, r) && Orderly(Apply(s, run[0]), run[1..], v, lock, r))
  }

  /** Another unit gives the lock up. */
  ghost predicate Releases(s: System, step: Step, v: string, lock: string) {
    step.Commit? && step.unit != v && Inside(s, step.unit, lock)
  }

  lemma StartAddsNoRival(s: System, step: Step, v: string, lock: string, r: string, w: string)
    requires Inv(s) && Seen(s, v, lock, r) && step.Start? && Enabled(s, step)
    requires Rival(Apply(s, step), v, lock, r, w)
    ensures Rival(s, v, lock, r, w)
  {
    var u := step.unit;
    var s' := Apply(s, step);
    StartIsFresh(s, u, step.peers, step.seen);
    assert Own(s', w, lock) == Own(s, w, lock);
    var t := Own(s, w, lock).value;
    if s.leader == Some(u) && HeldInLeaderHook(s', w, lock, t) && Entry(s.granted, w, lock) != Some(t) {
      assert NewGrant(s, step, w, lock);
      StepServesEarlier(s, step, v, lock, r, w);
    }
  }

  lemma AcquireAddsNoRival(s: System, step: Step, v: string, lock: string, r: string, w: string)
    requires Inv(s) && Seen(s, v, lock, r) && step.Acquire? && Enabled(s, step)
    requires DrawsLater(s, step, v, lock, r)
    requires Rival(Apply(s, step), v, lock, r, w)
    ensures Rival(s, v, lock, r, w)
  {
    var u := step.unit;
    var s' := Apply(s, step);
    AcquireEntries(s.open[u], u, step.lock, step.now);
    var t := Own(s', w, lock).value;
    if HeldInLeaderHook(s', w, lock, t) && !HeldInLeaderHook(s, w, lock, t) {
      assert NewGrant(s, step, w, lock);
      StepServesEarlier(s, step, v, lock, r, w);
    }
    if Own(s', w, lock) != Own(s, w, lock) {
      assert DrawnBy(s.granted, s.drawn);
      assert forall x :: x in s.open ==> DrawnBy(s.open[x].grants, s.drawn);
      BeforeAsymmetric(Ticket(r, v), Ticket(step.now, u));
    }
  }

  lemma CommitAddsNoRival(s: System, step: Step, v: string, lock: string, r: string, w: string)
    requires Inv(s) && step.Commit? && Enabled(s, step)
    requires Rival(Apply(s, step), v, lock, r, w)
    ensures Rival(s, v, lock, r, w)
  {
    var u := step.unit;
    var s' := Apply(s, step);
    assert Own(s', w, lock) == Own(s, w, lock);
  }

  lemma QuietAddsNoRival(s: System, step: Step, v: string, lock: string, r: string, w: string)
    requires Inv(s) && Enabled(s, step)
    requires step.Join? || step.Depart? || step.Elect? || step.Abort?
    requires Rival(Apply(s, step), v, lock, r, w)
    ensures Rival(s, v, lock, r, w)
  {
    assert Own(Apply(s, step), w, lock) == Own(s, w, lock);
  }

  lemma RegrantAddsNoRival(s: System, step: Step, v: string, lock: string, r: string, w: string)
    requires Inv(s) && Seen(s, v, lock, r) && (step.Handle? || step.Grant?) && Enabled(s, step)
    requires Rival(Apply(s, step), v, lock, r, w)
    ensures Rival(s, v, lock, r, w)
  {
    var s' := Apply(s, step);
    StepRegrants(s, step);
    var t := Own(s', w, lock).value;
    if HeldInLeaderHook(s', w, lock, t) && !HeldInLeaderHook(s, w, lock, t) {
      assert NewGrant(s, step, w, lock);
      StepServesEarlier(s, step, v, lock, r, w);
    }
  }

  lemma StepAddsNoRival(s: System, step: Step, v: string, lock: string, r: string)
    requires Inv(s) && Seen(s, v, lock, r) && Enabled(s, step)
    requires DrawsLater(s, step, v, lock, r)
    ensures Rivals(Apply(s, step), v, lock, r) <= Rivals(s, v, lock, r)
  {
    forall w | Rival(Apply(s, step), v, lock, r, w) ensures Rival(s, v, lock, r, w) {
      match step
      case Start(_, _, _) => StartAddsNoRival(s, step, v, lock, r, w);
      case Acquire(_, _, _) => AcquireAddsNoRival(s, step, v, lock, r, w);
      case Commit(_) => CommitAddsNoRival(s, step, v, lock, r, w);
      case Handle(_) => RegrantAddsNoRival(s, step, v, lock, r, w);
      case Grant(_, _, _) => RegrantAddsNoRival(s, step, v, lock, r, w);
      case _ => QuietAddsNoRival(s, step, v, lock, r, w);
    }
  }

  /** A unit that releases the lock was a rival and is one no more. */
  lemma ReleaseRemovesRival(s: System, step: Step, v: string, lock: string, r: string)
    requires Inv(s) && Enabled(s, step) && Releases(s, step, v, lock)
    ensures step.unit in Rivals(s, v, lock, r)
    ensures step.unit !in Rivals(Apply(s, step), v, lock, r)
  {
  }

  ghost function CountReleases(s: System, run: seq<Step>, v: string, lock: string): nat
    requires Legal(s, run)
    decreases |run|
  {
    if run == [] then 0
    else (if Releases(s, run[0], v, lock) then 1 else 0) + CountReleases(Apply(s, run[0]), run[1..], v, lock)
  }

  /** A rival leaves: by releasing the lock, by departing, or by failing before its request is published. */
  ghost predicate Leaves(s: System, step: Step, v: string, lock: string, r: string)
    requires Enabled(s, step)
  {
    step.unit in Rivals(s, v, lock, r) && step.unit !in Rivals(Apply(s, step), v, lock, r)
  }

  lemma DepartedRivalLeaves(s: System, w: string, v: string, lock: string, r: string)
    requires Inv(s) && w in s.live && w !in s.open && w in Rivals(s, v, lock, r)
    ensures Enabled(s, Depart(w)) && Leaves(s, Depart(w), v, lock, r)
  {
  }

  lemma FailedRivalLeaves(s: System, w: string, v: string, lock: string, r: string)
    requires Inv(s) && Enabled(s, Abort(w)) && w in Rivals(s, v, lock, r) && Entry(s.published, w, lock).None?
    ensures Leaves(s, Abort(w), v, lock, r)
  {
  }

  ghost function CountLeaving(s: System, run: seq<Step>, v: string, lock: string, r: string): nat
    requires Legal(s, run)
    decreases |run|
  {
    if run == [] then 0
    else (if Leaves(s, run[0], v, lock, r) then 1 else 0) + CountLeaving(Apply(s, run[0]), run[1..], v, lock, r)
  }

  lemma SubsetSize(a: set<string>, b: set<string>)
    requires a <= b
    ensures |a| <= |b|
    ensures a != b ==> |a| < |b|
  {
    assert b == a + (b - a) && a !! b - a;
    assert |b| == |a| + |b - a|;
  }

  /** Bounded waiting: while `v` waits, the lock changes hands at most once for every unit that
      asked earlier or held it to begin with; what is left of that number is a measure that no
      step raises and that every release lowers, as does any other way in which a rival leaves. */
  lemma {:induction false} BoundedWaiting(s: System, run: seq<Step>, v: string, lock: string, r: string)
    requires Inv(s) && Seen(s, v, lock, r)
    requires Legal(s, run) && WaitsThrough(s, run, v, lock) && Orderly(s, run, v, lock, r)
    ensures CountReleases(s, run, v, lock) <= CountLeaving(s, run, v, lock, r)
    ensures CountLeaving(s, run, v, lock, r) + |Rivals(Run(s, run), v, lock, r)| <= |Rivals(s, v, lock, r)|
    decreases |run|
  {
    if run != [] {
      var s' := Apply(s, run[0]);
      StepKeepsInv(s, run[0]);
      StepKeepsSeen(s, run[0], v, lock, r);
      BoundedWaiting(s', run[1..], v, lock, r);
      StepAddsNoRival(s, run[0], v, lock, r);
      if Releases(s, run[0], v, lock) {
        ReleaseRemovesRival(s, run[0], v, lock, r);
      }
      SubsetSize(Rivals(s', v, lock, r), Rivals(s, v, lock, r));
    }
  }

  /** Handling gives every requested lock to a unit that still stands by its request. */
  lemma HandledLockIsHeld(s: System, leader: string, view: View, v: string, lock: string) returns (w: string)
    requires Inv(s) && Entry(s.published, v, lock).Some?
    requires s.leader == Some(leader) && Enabled(s, Start(leader, s.published, s.granted))
    requires view == StartView(true, leader, s.published, s.granted)
    ensures Entry(view.grants, w, lock).Some?
    ensures Entry(view.grants, w, lock) == Entry(s.published, w, lock)
  {
    StartIsFresh(s, leader, s.published, s.granted);
    w := OutcomeHolder(PeerRequests(s.published, leader, map[]), s.granted, v, lock);
  }

  lemma HolderIsRival(s: System, leader: string, view: View, s': System, v: string, lock: string, r: string, w: string)
    requires Inv(s) && leader !in s.open && s.leader == Some(leader)
    requires FreshView(s, leader, view)
    requires s' == s.(open := s.open[leader := view])
    requires Entry(view.grants, w, lock).Some? && Entry(view.grants, w, lock) == Entry(s.published, w, lock)
    ensures w == v || Rival(s', v, lock, r, w)
  {
  }

  /** The lock is never left idle: once a leader's hook has started, it belongs to the waiting unit
      or to one of its rivals. */
  lemma LockGoesToRival(s: System, leader: string, v: string, lock: string, r: string) returns (w: string)
    requires Inv(s) && Seen(s, v, lock, r)
    requires s.leader == Some(leader) && Enabled(s, Start(leader, s.published, s.granted))
    ensures var s' := Apply(s, Start(leader, s.published, s.granted));
            && Entry(s'.open[leader].grants, w, lock).Some?
            && Entry(s'.open[leader].grants, w, lock) == Entry(s.published, w, lock)
            && (w == v || Rival(s', v, lock, r, w))
  {
    var view := StartView(true, leader, s.published, s.granted);
    w := HandledLockIsHeld(s, leader, view, v, lock);
    StartIsFresh(s, leader, s.published, s.granted);
    HolderIsRival(s, leader, view, Apply(s, Start(leader, s.published, s.granted)), v, lock, r, w);
  }

  /** With no rival left, the next leader's hook to start gives the lock to the waiting unit. */
  lemma ServedWhenAlone(s: System, leader: string, v: string, lock: string, r: string)
    requires Inv(s) && Seen(s, v, lock, r) && Rivals(s, v, lock, r) == {}
    requires s.leader == Some(leader) && Enabled(s, Start(leader, s.published, s.granted))
    ensures Entry(Apply(s, Start(leader, s.published, s.granted)).open[leader].grants, v, lock) == Some(r)
  {
    var step := Start(leader, s.published, s.granted);
    var w := LockGoesToRival(s, leader, v, lock, r);
    if w != v {
      StartAddsNoRival(s, step, v, lock, r, w);
    }
  }

  /** Served at last: in any run in which stamps agree with time and `v` keeps waiting, once as many rivals
      have left as there were at the start, no rival is left and the next leader's hook to start gives
      the lock to `v`. */
  lemma ServedAtLast(s: System, run: seq<Step>, leader: string, v: string, lock: string, r: string)
    requires Inv(s) && Seen(s, v, lock, r)
    requires Legal(s, run) && WaitsThrough(s, run, v, lock) && Orderly(s, run, v, lock, r)
    requires CountLeaving(s, run, v, lock, r) >= |Rivals(s, v, lock, r)|
    requires var s' := Run(s, run);
             s'.leader == Some(leader) && Enabled(s', Start(leader, s'.published, s'.granted))
    ensures var s' := Run(s, run);
            && Rivals(s', v, lock, r) == {}
            && Entry(Apply(s', Start(leader, s'.published, s'.granted)).open[leader].grants, v, lock) == Some(r)
  {
    BoundedWaiting(s, run, v, lock, r);
    RunKeepsSeen(s, run, v, lock, r);
    ServedWhenAlone(Run(s, run), leader, v, lock, r);
  }

  /** A grant that has been committed lets the unit in at the start of its next hook. */
  lemma GrantLetsIn(s: System, v: string, lock: string, peers: Table)
    requires Inv(s) && Matches(s, v, lock)
    requires Enabled(s, Start(v, peers, s.granted))
    ensures Inside(Apply(s, Start(v, peers, s.granted)), v, lock)
  {
  }

  /** A committed grant stays in force while its unit stands by its request. */
  lemma MatchStays(s: System, step: Step, v: string, lock: string)
    requires Inv(s) && Matches(s, v, lock) && Enabled(s, step) && KeepsWaiting(s, step, v, lock)
    ensures Matches(Apply(s, step), v, lock)
  {
    assert (v, lock, Entry(s.granted, v, lock).value) in s.drawn by { assert DrawnBy(s.granted, s.drawn); }
  }

  lemma {:induction false} MatchStaysThrough(s: System, run: seq<Step>, v: string, lock: string)
    requires Inv(s) && Matches(s, v, lock) && Legal(s, run) && WaitsThrough(s, run, v, lock)
    ensures Inv(Run(s, run)) && Matches(Run(s, run), v, lock)
    decreases |run|
  {
    if run != [] {
      StepKeepsInv(s, run[0]);
      MatchStays(s, run[0], v, lock);
      MatchStaysThrough(Apply(s, run[0]), run[1..], v, lock);
    }
  }

  /** The leader's open hook has given the lock to `v`. */
  ghost predicate Given(s: System, leader: string, v: string, lock: string, r: string) {
    leader in s.open && s.open[leader].leader && Entry(s.open[leader].grants, v, lock) == Some(r)
  }

  predicate StaysOpen(run: seq<Step>, leader: string) {
    Commit(leader) !in run && Abort(leader) !in run
  }

  lemma {:induction false} GivenStays(s: System, run: seq<Step>, leader: string, v: string, lock: string, r: string)
    requires Inv(s) && Given(s, leader, v, lock, r) && Legal(s, run) && StaysOpen(run, leader)
    ensures Given(Run(s, run), leader, v, lock, r)
    decreases |run|
  {
    if run != [] {
      var step := run[0];
      StepKeepsInv(s, step);
      if step.Acquire? && step.unit == leader {
        AcquireEntries(s.open[leader], leader, step.lock, step.now);
      } else if step.Handle? || step.Grant? {
        StepRegrants(s, step);
      }
      GivenStays(Apply(s, step), run[1..], leader, v, lock, r);
    }
  }

  /** The leader that waits for a lock itself is in as soon as it is given the lock. */
  lemma LeaderGetsIn(s: System, v: string, lock: string, r: string)
    requires Inv(s) && Given(s, v, v, lock, r) && Seen(s, v, lock, r)
    ensures Inside(s, v, lock)
  {
    assert (v, lock, r) in s.drawn by { assert DrawnBy(s.published, s.drawn); }
  }

  /** In at last, the whole way: `run` lets the rivals leave, the leader's hook starts, goes through
      `during` and ends well, `later` may be anything in which `v` waits, and then the next hook of `v`
      that sees the grants in force starts inside the lock. */
  lemma GetsInAtLast(s: System, run: seq<Step>, leader: string, during: seq<Step>, later: seq<Step>,
                     peers: Table, v: string, lock: string, r: string)
    requires Inv(s) && Seen(s, v, lock, r) && leader != v
    requires Legal(s, run) && WaitsThrough(s, run, v, lock) && Orderly(s, run, v, lock, r)
    requires CountLeaving(s, run, v, lock, r) >= |Rivals(s, v, lock, r)|
    requires var s1 := Run(s, run);
             s1.leader == Some(leader) && Enabled(s1, Start(leader, s1.published, s1.granted))
    requires var s2 := Apply(Run(s, run), Start(leader, Run(s, run).published, Run(s, run).granted));
             Legal(s2, during) && WaitsThrough(s2, during, v, lock) && StaysOpen(during, leader)
             && Enabled(Run(s2, during), Commit(leader))
             && var s3 := Apply(Run(s2, during), Commit(leader));
                Legal(s3, later) && WaitsThrough(s3, later, v, lock)
                && Enabled(Run(s3, later), Start(v, peers, Run(s3, later).granted))
    ensures var s2 := Apply(Run(s, run), Start(leader, Run(s, run).published, Run(s, run).granted));
            var s4 := Run(Apply(Run(s2, during), Commit(leader)), later);
            Inside(Apply(s4, Start(v, peers, s4.granted)), v, lock)
  {
    var s1 := Run(s, run);
    var start := Start(leader, s1.published, s1.granted);
    var s2 := Apply(s1, start);
    ServedAtLast(s, run, leader, v, lock, r);
    RunKeepsSeen(s, run, v, lock, r);
    StepKeepsInv(s1, start);
    StepKeepsSeen(s1, start, v, lock, r);
    CommitsMatch(s2, during, leader, v, lock, r);
    var s3 := Apply(Run(s2, during), Commit(leader));
    MatchStaysThrough(s3, later, v, lock);
    GrantLetsIn(Run(s3, later), v, lock, peers);
  }

  lemma CommitsMatch(s: System, during: seq<Step>, leader: string, v: string, lock: string, r: string)
    requires Inv(s) && Seen(s, v, lock, r) && Given(s, leader, v, lock, r) && leader != v
    requires Legal(s, during) && WaitsThrough(s, during, v, lock) && StaysOpen(during, leader)
    requires Enabled(Run(s, during), Commit(leader))
    ensures var s' := Apply(Run(s, during), Commit(leader));
            Inv(s') && Matches(s', v, lock)
  {
    GivenStays(s, during, leader, v, lock, r);
    RunKeepsSeen(s, during, v, lock, r);
    StepKeepsInv(Run(s, during), Commit(leader));
  }
}
