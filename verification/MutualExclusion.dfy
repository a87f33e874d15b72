/** Safety of Serial coordination over all runs: no two units are ever inside the same lock. */
module MutualExclusion {
  import opened Wrappers
  import opened LockTables
  import opened Coordinator
  import opened Protocol

  /** A request filed in a hook that has not ended yet: its stamp is not the published one. */
  ghost predicate Unpublished(s: System, unit: string, lock: string) {
    && unit in s.open
    && Entry(s.open[unit].requests, unit, lock).Some?
    && Entry(s.published, unit, lock).None?
  }

  /** Committed grants: at most one unit per lock, and a unit whose request ever matched a
      grant that was replaced since still matches the one in force, or never will again. */
  ghost predicate GrantsSound(s: System) {
    && s.granted in s.past
    && Exclusive(s.granted)
    && (forall g, u, l :: g in s.past && Entry(g, u, l).Some? && Entry(g, u, l) == Entry(s.published, u, l)
                          ==> Entry(s.granted, u, l) == Entry(g, u, l))
  }

  /** A hook's own requests are the published ones plus what it filed itself, under stamps that
      no grant has ever carried. */
  ghost predicate OwnRequestsSound(s: System) {
    && (forall u :: u in s.open ==> u in s.open[u].requests && u in s.live)
    && (forall u, l :: u in s.open && Entry(s.published, u, l).Some?
                       ==> Entry(s.open[u].requests, u, l) == Entry(s.published, u, l))
    && (forall u, l, g :: Unpublished(s, u, l) && g in s.past
                          ==> Entry(g, u, l) != Entry(s.open[u].requests, u, l))
    && (forall u, l, v :: Unpublished(s, u, l) && v in s.open && v != u
                          ==> Entry(s.open[v].grants, u, l) != Entry(s.open[u].requests, u, l))
  }

  /** Only the leader's hook changes grants; it never forgets one that is still in use. */
  ghost predicate ViewsSound(s: System) {
    && (forall u :: u in s.open ==> (s.open[u].leader <==> s.leader == Some(u)))
    && (forall u :: u in s.open && !s.open[u].leader ==> s.open[u].grants in s.past)
    && (forall u :: u in s.open && s.open[u].leader ==>
                      && Exclusive(s.open[u].grants)
                      && forall v, l :: Matches(s, v, l) ==> Entry(s.open[u].grants, v, l) == Entry(s.granted, v, l))
  }

  /** Every stamp anywhere was drawn once, by the unit and for the lock it stands under. */
  ghost predicate DrawnBy(t: Table, drawn: set<(string, string, string)>) {
    forall u, l :: Entry(t, u, l).Some? ==> (u, l, Entry(t, u, l).value) in drawn
  }

  ghost predicate StampsSound(s: System) {
    && (forall u, l, ts :: (u, l, ts) in s.drawn ==> ts != "")
    && (forall g :: g in s.past ==> DrawnBy(g, s.drawn))
    && DrawnBy(s.published, s.drawn)
    && (forall u :: u in s.open ==> DrawnBy(s.open[u].grants, s.drawn))
    && (forall u, l :: u in s.open && Entry(s.open[u].requests, u, l).Some?
                       ==> (u, l, Entry(s.open[u].requests, u, l).value) in s.drawn)
  }

  /** Units that never joined have published nothing. */
  ghost predicate MembersSound(s: System) {
    s.live <= s.known && s.published.Keys <= s.live
  }

  ghost predicate Core(s: System) {
    GrantsSound(s) && OwnRequestsSound(s) && ViewsSound(s) && StampsSound(s) && MembersSound(s)
  }

  /** What a leader's hook works with: no stale grant, requests that were all drawn, and for other units
      none that they have not published yet. */
  ghost predicate TablesSound(s: System) {
    forall u :: u in s.open && s.open[u].leader ==>
      && Current(s.open[u].requests, s.open[u].grants)
      && DrawnBy(s.open[u].requests, s.drawn)
      && forall w, l :: w != u && Unpublished(s, w, l)
                        ==> Entry(s.open[u].requests, w, l) != Entry(s.open[w].requests, w, l)
  }

  ghost predicate Inv(s: System) {
    Core(s) && TablesSound(s)
  }

  lemma InitialInv()
    ensures Inv(Initial())
  {
  }

  lemma MembersKeepInv(s: System, step: Step)
    requires Core(s) && Enabled(s, step) && (step.Join? || step.Depart? || step.Elect?)
    ensures Core(Apply(s, step))
  {
    var s' := Apply(s, step);
    forall u, l ensures Entry(s'.published, u, l) == Entry(s.published, u, l)
                        || (Entry(s'.published, u, l).None? && u !in s'.live) {
    }
    assert forall u, l :: Matches(s', u, l) ==> Matches(s, u, l);
  }

  lemma AbortKeepsInv(s: System, u: string)
    requires Core(s) && u in s.open
    ensures Core(Apply(s, Abort(u)))
  {
    var s' := Apply(s, Abort(u));
    forall w, l | Unpublished(s', w, l) ensures Unpublished(s, w, l) {
    }
  }

  /** What a freshly started hook sees. */
  ghost predicate FreshView(s: System, u: string, v: View) {
    && u in v.requests
    && (forall l :: Entry(v.requests, u, l) == Entry(s.published, u, l))
    && (v.leader <==> s.leader == Some(u))
    && (!v.leader ==> v.grants in s.past)
    && (v.leader ==>
          && Exclusive(v.grants)
          && (forall w, l :: Entry(v.grants, w, l).Some? ==> Entry(s.published, w, l) == Entry(v.grants, w, l))
          && (forall w, l :: Matches(s, w, l) ==> Entry(v.grants, w, l) == Entry(s.granted, w, l)))
  }

  lemma StartIsFresh(s: System, u: string, peers: Table, seen: Table)
    requires Inv(s) && Enabled(s, Start(u, peers, seen))
    ensures FreshView(s, u, StartView(s.leader == Some(u), u, peers, seen))
  {
    OwnEntries(s.published, peers, u);
    if s.leader == Some(u) {
      PeerEntries(s.published, u);
      LeaderGrants(s, PeerRequests(s.published, u, map[]));
    }
  }

  lemma OwnEntries(published: Table, peers: Table, u: string)
    requires (u in peers <==> u in published) && (u in peers ==> peers[u] == published[u])
    ensures u in PeerRequests(peers, u, map[])
    ensures forall l :: Entry(PeerRequests(peers, u, map[]), u, l) == Entry(published, u, l)
  {
  }

  lemma PeerEntries(published: Table, w: string)
    ensures forall x, l :: Entry(PeerRequests(published, w, map[]), x, l) == Entry(published, x, l)
  {
  }

  /** What handling makes of the committed grants, in terms of what is published. */
  lemma LeaderGrants(s: System, requests: Table)
    requires GrantsSound(s) && forall w, l :: Entry(requests, w, l) == Entry(s.published, w, l)
    ensures var grants := SerialOutcome(requests, s.granted);
            && Exclusive(grants)
            && (forall w, l :: Entry(grants, w, l).Some? ==> Entry(s.published, w, l) == Entry(grants, w, l))
            && (forall w, l :: Matches(s, w, l) ==> Entry(grants, w, l) == Entry(s.granted, w, l))
  {
    SerialOutcomeEntries(requests, s.granted);
    forall w, l | Matches(s, w, l) ensures !Stale(requests, s.granted, w, l) {
    }
  }

  lemma OpenKeepsOwn(s: System, u: string, v: View, s': System)
    requires GrantsSound(s) && OwnRequestsSound(s) && u in s.live && u !in s.open
    requires FreshView(s, u, v)
    requires s' == s.(open := s.open[u := v])
    ensures OwnRequestsSound(s')
  {
    forall w, l | Unpublished(s', w, l) ensures w != u && Unpublished(s, w, l) {
    }
    forall w, l, x | Unpublished(s', w, l) && x in s'.open && x != w
      ensures Entry(s'.open[x].grants, w, l) != Entry(s'.open[w].requests, w, l)
    {
      assert Unpublished(s, w, l);
    }
  }

  lemma OpenKeepsViews(s: System, u: string, v: View, s': System)
    requires ViewsSound(s) && u !in s.open
    requires FreshView(s, u, v)
    requires s' == s.(open := s.open[u := v])
    ensures ViewsSound(s')
  {
    forall w, l | Matches(s', w, l) ensures Matches(s, w, l) {
    }
  }

  lemma OpenKeepsStamps(s: System, u: string, v: View, s': System)
    requires StampsSound(s) && u !in s.open
    requires FreshView(s, u, v)
    requires s' == s.(open := s.open[u := v])
    ensures StampsSound(s')
  {
  }

  lemma OpenKeepsInv(s: System, u: string, v: View, s': System)
    requires Core(s) && u in s.live && u !in s.open
    requires FreshView(s, u, v)
    requires s' == s.(open := s.open[u := v])
    ensures Core(s')
  {
    OpenKeepsOwn(s, u, v, s');
    OpenKeepsViews(s, u, v, s');
    OpenKeepsStamps(s, u, v, s');
  }

  lemma AcquireKeepsInv(s: System, u: string, lock: string, now: string)
    requires Core(s) && Enabled(s, Acquire(u, lock, now))
    ensures Core(Apply(s, Acquire(u, lock, now)))
  {
    var s' := Apply(s, Acquire(u, lock, now));
    AcquireEntries(s.open[u], u, lock, now);
    AcquiredKeepsOwn(s, u, lock, now, s');
    AcquiredKeepsViews(s, u, lock, now, s');
    AcquiredKeepsStamps(s, u, lock, now, s');
  }

  /** `acquire` changes at most two entries: the request filed and the grant given for it. */
  ghost predicate AcquiredView(v: View, u: string, lock: string, now: string, v': View) {
    && v'.leader == v.leader
    && u in v'.requests
    && (forall l :: Entry(v'.requests, u, l) ==
                    if l == lock && MustFile(v, u, lock) then Some(now) else Entry(v.requests, u, l))
    && (forall w, l :: (w != u || l != lock) ==> Entry(v'.grants, w, l) == Entry(v.grants, w, l))
    && (Entry(v'.grants, u, lock) == Entry(v.grants, u, lock)
        || (v.leader && Entry(v'.grants, u, lock) == Entry(v'.requests, u, lock)
            && forall w :: Entry(v.grants, w, lock).None?))
    && (!v.leader ==> v'.grants == v.grants)
  }

  lemma AcquireEntries(v: View, u: string, lock: string, now: string)
    requires u in v.requests
    ensures AcquiredView(v, u, lock, now, AcquireView(v, u, lock, now))
  {
    var v' := AcquireView(v, u, lock, now);
    forall l ensures Entry(v'.requests, u, l) ==
                     if l == lock && MustFile(v, u, lock) then Some(now) else Entry(v.requests, u, l)
    {
      StrayRowIsHarmless(v.requests, u, lock, now, u, l);
    }
    SerialAdmits(SerialDefaultGrant, v'.requests, v.grants, lock, u);
    HoldersEmpty(v.grants, lock);
  }

  /** The state after `u`'s hook has called `acquire`. */
  ghost predicate Acquired(s: System, u: string, lock: string, now: string, s': System) {
    && u in s.open && u in s'.open
    && (MustFile(s.open[u], u, lock) ==> now != "" && (u, lock, now) !in s.drawn)
    && AcquiredView(s.open[u], u, lock, now, s'.open[u])
    && s' == s.(open := s.open[u := s'.open[u]],
                drawn := if MustFile(s.open[u], u, lock) then s.drawn + {(u, lock, now)} else s.drawn)
  }

  lemma AcquiredKeepsOwn(s: System, u: string, lock: string, now: string, s': System)
    requires OwnRequestsSound(s) && StampsSound(s) && Acquired(s, u, lock, now, s')
    ensures OwnRequestsSound(s')
  {
    var files := MustFile(s.open[u], u, lock);
    assert files ==> Entry(s.published, u, lock).None?;
    forall w, l, g | Unpublished(s', w, l) && g in s'.past
      ensures Entry(g, w, l) != Entry(s'.open[w].requests, w, l)
    {
      assert DrawnBy(g, s.drawn);
      assert (w == u && l == lock && files) || Unpublished(s, w, l);
    }
    forall w, l, x | Unpublished(s', w, l) && x in s'.open && x != w
      ensures Entry(s'.open[x].grants, w, l) != Entry(s'.open[w].requests, w, l)
    {
      assert DrawnBy(s.open[x].grants, s.drawn);
      assert (w == u && l == lock && files) || Unpublished(s, w, l);
    }
  }

  lemma AcquiredKeepsViews(s: System, u: string, lock: string, now: string, s': System)
    requires ViewsSound(s) && OwnRequestsSound(s) && Acquired(s, u, lock, now, s')
    ensures ViewsSound(s')
  {
    var v, v' := s.open[u], s'.open[u];
    forall w, l | Matches(s', w, l) ensures Matches(s, w, l) {
    }
    if v.leader {
      forall w, x, l | Entry(v'.grants, w, l).Some? && Entry(v'.grants, x, l).Some? ensures w == x {
        assert Exclusive(v.grants);
      }
    }
  }

  lemma AcquiredKeepsStamps(s: System, u: string, lock: string, now: string, s': System)
    requires StampsSound(s) && Acquired(s, u, lock, now, s')
    ensures StampsSound(s')
  {
    var v, v' := s.open[u], s'.open[u];
    forall w, l | Entry(v'.grants, w, l).Some? ensures (w, l, Entry(v'.grants, w, l).value) in s'.drawn {
      assert DrawnBy(v.grants, s.drawn);
    }
  }

  // ---------------------------------------------------------------- handling and granting inside a hook

  /** A leader's hook has given away free locks: what was granted stays, and what is new is a request
      the hook knows. */
  ghost predicate Regranted(v: View, v': View) {
    && v'.leader == v.leader && v'.requests == v.requests
    && (!v.leader ==> v' == v)
    && (v.leader ==> Exclusive(v'.grants))
    && (forall w, l :: Entry(v.grants, w, l).Some? ==> Entry(v'.grants, w, l) == Entry(v.grants, w, l))
    && (forall w, l :: Entry(v'.grants, w, l) != Entry(v.grants, w, l)
                       ==> Entry(v'.grants, w, l) == Entry(v.requests, w, l))
  }

  lemma HandleRegrants(v: View)
    requires v.leader ==> Exclusive(v.grants) && Current(v.requests, v.grants)
    ensures Regranted(v, HandleView(v))
  {
    if v.leader {
      SerialOutcomeEntries(v.requests, v.grants);
    }
  }

  lemma GrantRegrants(v: View, lock: string, to: string)
    requires v.leader ==> Exclusive(v.grants)
    ensures Regranted(v, GrantView(v, lock, to))
  {
    GrantKeepsCurrent(SerialDefaultGrant, v.requests, v.grants, lock, to);
    SerialAdmits(SerialDefaultGrant, v.requests, v.grants, lock, to);
    HoldersEmpty(v.grants, lock);
  }

  /** The state after `u`'s hook has done so. */
  ghost predicate RegrantedBy(s: System, u: string, s': System) {
    && u in s.open && u in s'.open && Regranted(s.open[u], s'.open[u])
    && s' == s.(open := s.open[u := s'.open[u]])
  }

  lemma StepRegrants(s: System, step: Step)
    requires Inv(s) && Enabled(s, step) && (step.Handle? || step.Grant?)
    ensures RegrantedBy(s, step.unit, Apply(s, step))
  {
    if step.Handle? {
      HandleRegrants(s.open[step.unit]);
    } else {
      GrantRegrants(s.open[step.unit], step.lock, step.to);
    }
  }

  lemma RegrantKeepsOwn(s: System, u: string, s': System)
    requires Inv(s) && RegrantedBy(s, u, s')
    ensures OwnRequestsSound(s')
  {
    forall w, l | Unpublished(s', w, l) ensures Unpublished(s, w, l) && s'.open[w].requests == s.open[w].requests {
    }
  }

  lemma RegrantKeepsViews(s: System, u: string, s': System)
    requires ViewsSound(s) && RegrantedBy(s, u, s')
    ensures ViewsSound(s')
  {
    forall w, l | Matches(s', w, l) ensures Matches(s, w, l) {
    }
  }

  lemma RegrantKeepsStamps(s: System, u: string, s': System)
    requires StampsSound(s) && TablesSound(s) && RegrantedBy(s, u, s')
    ensures StampsSound(s')
  {
    var v, v' := s.open[u], s'.open[u];
    forall w, l | Entry(v'.grants, w, l).Some? ensures (w, l, Entry(v'.grants, w, l).value) in s.drawn {
      assert DrawnBy(v.grants, s.drawn);
      assert v.leader ==> DrawnBy(v.requests, s.drawn);
    }
  }

  // ---------------------------------------------------------------- a leader's tables

  lemma RegrantKeepsTables(s: System, u: string, s': System)
    requires TablesSound(s) && RegrantedBy(s, u, s')
    ensures TablesSound(s')
  {
    forall w, l | Unpublished(s', w, l) ensures Unpublished(s, w, l) && s'.open[w].requests == s.open[w].requests {
    }
  }

  lemma StartKeepsTables(s: System, u: string, peers: Table, seen: Table)
    requires Inv(s) && Enabled(s, Start(u, peers, seen))
    ensures TablesSound(Apply(s, Start(u, peers, seen)))
  {
    var s' := Apply(s, Start(u, peers, seen));
    StartIsFresh(s, u, peers, seen);
    forall w, l | Unpublished(s', w, l) ensures w != u && Unpublished(s, w, l) {
    }
    if s.leader == Some(u) {
      PeerEntries(s.published, u);
      SerialOutcomeEntries(PeerRequests(peers, u, map[]), seen);
      assert DrawnBy(s.published, s.drawn);
    }
  }

  lemma AcquireKeepsCurrent(s: System, u: string, lock: string, now: string)
    requires Inv(s) && Enabled(s, Acquire(u, lock, now)) && s.open[u].leader
    ensures var w := AcquireView(s.open[u], u, lock, now);
            Current(w.requests, w.grants)
  {
    var v := s.open[u];
    var requests := WithRequest(v.requests, u, lock, now);
    forall x, l | Entry(v.grants, x, l).Some? ensures Entry(requests, x, l) == Entry(v.grants, x, l) {
      StrayRowIsHarmless(v.requests, u, lock, now, x, l);
    }
    GrantKeepsCurrent(SerialDefaultGrant, requests, v.grants, lock, u);
  }

  lemma AcquireKeepsTables(s: System, u: string, lock: string, now: string)
    requires Inv(s) && Enabled(s, Acquire(u, lock, now))
    ensures TablesSound(Apply(s, Acquire(u, lock, now)))
  {
    var s' := Apply(s, Acquire(u, lock, now));
    var v, v' := s.open[u], s'.open[u];
    forall w, l ensures Entry(v'.requests, w, l) == if w == u && l == lock && MustFile(v, u, lock) then Some(now)
                                                    else Entry(v.requests, w, l)
    {
      StrayRowIsHarmless(v.requests, u, lock, now, w, l);
    }
    if v.leader {
      AcquireKeepsCurrent(s, u, lock, now);
    }
    forall x, w, l | x in s'.open && s'.open[x].leader && w != x && Unpublished(s', w, l)
      ensures Entry(s'.open[x].requests, w, l) != Entry(s'.open[w].requests, w, l)
    {
      assert DrawnBy(s.open[x].requests, s.drawn);
      assert (w == u && l == lock && MustFile(v, u, lock)) || Unpublished(s, w, l);
    }
  }

  lemma EndKeepsTables(s: System, step: Step)
    requires TablesSound(s) && ViewsSound(s) && Enabled(s, step)
    requires step.Join? || step.Depart? || step.Elect? || step.Commit? || step.Abort?
    ensures TablesSound(Apply(s, step))
  {
    var s' := Apply(s, step);
    forall w, l | Unpublished(s', w, l) ensures Unpublished(s, w, l) {
    }
  }

  /** No step leaves a stale grant in a leader's open hook, or lets it know a request that its unit has
      not published. */
  lemma StepKeepsTables(s: System, step: Step)
    requires Inv(s) && Enabled(s, step)
    ensures TablesSound(Apply(s, step))
  {
    match step
    case Start(u, peers, seen) => StartKeepsTables(s, u, peers, seen);
    case Acquire(u, lock, now) => AcquireKeepsTables(s, u, lock, now);
    case Handle(u) =>
      StepRegrants(s, step);
      RegrantKeepsTables(s, u, Apply(s, step));
    case Grant(u, _, _) =>
      StepRegrants(s, step);
      RegrantKeepsTables(s, u, Apply(s, step));
    case _ => EndKeepsTables(s, step);
  }

  // ---------------------------------------------------------------- the end of a hook

  lemma CommitKeepsGrants(s: System, u: string)
    requires Inv(s) && u in s.open
    ensures GrantsSound(Apply(s, Commit(u)))
  {
    var s' := Apply(s, Commit(u));
    var v := s.open[u];
    forall g, w, l | g in s'.past && Entry(g, w, l).Some? && Entry(g, w, l) == Entry(s'.published, w, l)
      ensures Entry(s'.granted, w, l) == Entry(g, w, l)
    {
      if g in s.past {
        PastMatchIsPublished(s, u, g, w, l);
        assert Matches(s, w, l);
        if v.leader && w == u {
          assert (u, l, Entry(g, w, l).value) in s.drawn by { assert DrawnBy(g, s.drawn); }
          assert IsGranted(v.requests, v.grants, u, l);
        }
      }
    }
  }

  /** A request that matches an old grant after the commit was already published before it. */
  lemma PastMatchIsPublished(s: System, u: string, g: Table, w: string, l: string)
    requires Inv(s) && u in s.open && g in s.past
    requires Entry(g, w, l).Some? && Entry(g, w, l) == Entry(Apply(s, Commit(u)).published, w, l)
    ensures Entry(s.published, w, l) == Entry(g, w, l)
  {
    if w == u {
      assert Entry(g, w, l) == Entry(s.open[u].requests, u, l);
      assert !Unpublished(s, u, l);
    }
  }

  lemma CommitKeepsOwn(s: System, u: string)
    requires Inv(s) && u in s.open
    ensures OwnRequestsSound(Apply(s, Commit(u)))
  {
    var s' := Apply(s, Commit(u));
    forall w, l | Unpublished(s', w, l) ensures w != u && Unpublished(s, w, l) {
    }
  }

  lemma CommitKeepsViews(s: System, u: string)
    requires Inv(s) && u in s.open
    ensures ViewsSound(Apply(s, Commit(u)))
  {
    var s' := Apply(s, Commit(u));
    if !s.open[u].leader {
      forall w, l | Matches(s', w, l) ensures Matches(s, w, l) {
        PastMatchIsPublished(s, u, s.granted, w, l);
      }
    }
  }

  lemma CommitKeepsStamps(s: System, u: string)
    requires Inv(s) && u in s.open
    ensures StampsSound(Apply(s, Commit(u)))
  {
    var s' := Apply(s, Commit(u));
    assert DrawnBy(s.open[u].grants, s.drawn);
    forall w, l | Entry(s'.published, w, l).Some?
      ensures (w, l, Entry(s'.published, w, l).value) in s.drawn
    {
      if w == u {
        assert Entry(s'.published, w, l) == Entry(s.open[u].requests, u, l);
      } else {
        assert Entry(s'.published, w, l) == Entry(s.published, w, l);
        assert DrawnBy(s.published, s.drawn);
      }
    }
  }

  // ---------------------------------------------------------------- all runs

  lemma RegrantKeepsCore(s: System, u: string, s': System)
    requires Inv(s) && RegrantedBy(s, u, s')
    ensures Core(s')
  {
    RegrantKeepsOwn(s, u, s');
    RegrantKeepsViews(s, u, s');
    RegrantKeepsStamps(s, u, s');
  }

  lemma StepKeepsInv(s: System, step: Step)
    requires Inv(s) && Enabled(s, step)
    ensures Inv(Apply(s, step))
  {
    StepKeepsTables(s, step);
    match step
    case Handle(u) =>
      StepRegrants(s, step);
      RegrantKeepsCore(s, u, Apply(s, step));
    case Grant(u, _, _) =>
      StepRegrants(s, step);
      RegrantKeepsCore(s, u, Apply(s, step));
    case Start(u, peers, seen) =>
      StartIsFresh(s, u, peers, seen);
      OpenKeepsInv(s, u, StartView(s.leader == Some(u), u, peers, seen), Apply(s, step));
    case Acquire(u, lock, now) => AcquireKeepsInv(s, u, lock, now);
    case Commit(u) =>
      CommitKeepsGrants(s, u);
      CommitKeepsOwn(s, u);
      CommitKeepsViews(s, u);
      CommitKeepsStamps(s, u);
    case Abort(u) => AbortKeepsInv(s, u);
    case _ => MembersKeepInv(s, step);
  }

  lemma {:induction false} RunKeepsInv(s: System, run: seq<Step>)
    requires Inv(s) && Legal(s, run)
    ensures Inv(Run(s, run))
    decreases |run|
  {
    if run != [] {
      StepKeepsInv(s, run[0]);
      RunKeepsInv(Apply(s, run[0]), run[1..]);
    }
  }

  /** Being inside a lock is backed by the grant in force, or by the leader's own open hook. */
  lemma InsideIsBacked(s: System, u: string, lock: string)
    requires Inv(s) && Inside(s, u, lock)
    ensures s.open[u].leader || Matches(s, u, lock)
  {
    var v := s.open[u];
    if !v.leader {
      assert v.grants in s.past;
      assert !Unpublished(s, u, lock);
    }
  }

  lemma InvExcludes(s: System, u: string, v: string, lock: string)
    requires Inv(s) && Inside(s, u, lock) && Inside(s, v, lock)
    ensures u == v
  {
    InsideIsBacked(s, u, lock);
    InsideIsBacked(s, v, lock);
    if s.open[u].leader && !s.open[v].leader {
      assert Entry(s.open[u].grants, v, lock).Some?;
    } else if s.open[v].leader && !s.open[u].leader {
      assert Entry(s.open[v].grants, u, lock).Some?;
    }
  }

  /** Mutual exclusion: however units join, leave, lead, start, acquire, succeed and fail, two
      different units are never inside the same lock. */
  lemma MutualExclusion(run: seq<Step>, u: string, v: string, lock: string)
    requires Legal(Initial(), run)
    requires Inside(Run(Initial(), run), u, lock) && Inside(Run(Initial(), run), v, lock)
    ensures u == v
  {
    InitialInv();
    RunKeepsInv(Initial(), run);
    InvExcludes(Run(Initial(), run), u, v, lock);
  }

  /** Nothing is lost when leadership moves: after a hook has ended and any unit has been elected,
      the new leader reloads exactly what was published, drops every committed grant that is no
      longer requested, and keeps all others. */
  lemma HandoverKeepsState(s: System, u: string, w: string, view: View)
    requires Inv(s) && u in s.open
    requires Enabled(Apply(s, Commit(u)), Elect(w))
    requires var ended := Apply(s, Commit(u));
             view == StartView(true, w, ended.published, ended.granted)
    ensures forall x, l :: Entry(view.requests, x, l) == Entry(Apply(s, Commit(u)).published, x, l)
    ensures forall x, l :: Matches(Apply(s, Commit(u)), x, l)
                           ==> Entry(view.grants, x, l) == Entry(Apply(s, Commit(u)).granted, x, l)
    ensures forall x, l :: Entry(view.grants, x, l).Some? ==> Entry(view.grants, x, l) == Entry(view.requests, x, l)
  {
    var ended := Apply(s, Commit(u));
    StepKeepsInv(s, Commit(u));
    StepKeepsInv(ended, Elect(w));
    var elected := Apply(ended, Elect(w));
    assert elected.published == ended.published && elected.granted == ended.granted;
    StartIsFresh(elected, w, elected.published, elected.granted);
    forall x, l | Matches(ended, x, l) ensures Entry(view.grants, x, l) == Entry(ended.granted, x, l) {
      assert Matches(elected, x, l);
    }
    PeerEntries(ended.published, w);
  }

  /** What a hook publishes no longer asks for the locks it was inside, and asks for all else it asked for. */
  lemma CommitPublishes(s: System, u: string, l: string)
    requires u in s.open
    ensures Entry(Apply(s, Commit(u)).published, u, l) ==
            if Inside(s, u, l) then None else Entry(s.open[u].requests, u, l)
  {
  }

  /** `acquire` lets a unit in exactly when it was in already, or it leads, nobody holds the lock in its
      view, and no request it knows of is earlier. */
  lemma AcquireEnters(s: System, u: string, lock: string, now: string)
    requires Inv(s) && Enabled(s, Acquire(u, lock, now))
    ensures var requests := WithRequest(s.open[u].requests, u, lock, now);
            Inside(Apply(s, Acquire(u, lock, now)), u, lock) <==>
            Inside(s, u, lock)
            || (s.open[u].leader && Holders(s.open[u].grants, lock) == {} && IsHead(requests, lock, u))
  {
    var v := s.open[u];
    var requests := WithRequest(v.requests, u, lock, now);
    StrayRowIsHarmless(v.requests, u, lock, now, u, lock);
    SerialAdmits(SerialDefaultGrant, requests, v.grants, lock, u);
    HoldersEmpty(v.grants, lock);
    assert DrawnBy(v.grants, s.drawn);
  }

  lemma RunCons(s: System, step: Step, rest: seq<Step>)
    requires Enabled(s, step) && Legal(Apply(s, step), rest)
    ensures Legal(s, [step] + rest) && Run(s, [step] + rest) == Run(Apply(s, step), rest)
  {
  }

  lemma RunOfFour(s: System, a: Step, b: Step, c: Step, d: Step)
    requires Enabled(s, a) && Enabled(Apply(s, a), b)
    requires Enabled(Apply(Apply(s, a), b), c) && Enabled(Apply(Apply(Apply(s, a), b), c), d)
    ensures Legal(s, [a, b, c, d])
    ensures Run(s, [a, b, c, d]) == Apply(Apply(Apply(Apply(s, a), b), c), d)
  {
    var s1 := Apply(s, a);
    var s2 := Apply(s1, b);
    var s3 := Apply(s2, c);
    assert Legal(Apply(s3, d), []) && Run(Apply(s3, d), []) == Apply(s3, d);
    RunCons(s3, d, []);
    RunCons(s2, c, [d] + []);
    RunCons(s1, b, [c] + ([d] + []));
    RunCons(s, a, [b] + ([c] + ([d] + [])));
    assert [a] + ([b] + ([c] + ([d] + []))) == [a, b, c, d];
  }

  /** A leader whose hook knows of no other request and no grant is let in at once. */
  lemma LoneLeaderEnters(s: System, u: string, lock: string, now: string)
    requires Inv(s) && Enabled(s, Acquire(u, lock, now)) && s.open[u].leader
    requires forall w :: Entry(s.open[u].grants, w, lock).None?
    requires forall w :: w != u ==> Entry(s.open[u].requests, w, lock).None?
    ensures Inside(Apply(s, Acquire(u, lock, now)), u, lock)
  {
    HoldersEmpty(s.open[u].grants, lock);
    var requests := WithRequest(s.open[u].requests, u, lock, now);
    forall w ensures Entry(requests, w, lock) == if w == u then Entry(requests, u, lock)
                                                 else Entry(s.open[u].requests, w, lock)
    {
      StrayRowIsHarmless(s.open[u].requests, u, lock, now, w, lock);
    }
    AcquireEnters(s, u, lock, now);
  }

  /** The theorems are not vacuous: a lone unit that joins, is elected and asks is let in. */
  lemma SomeoneGetsIn(u: string, lock: string, now: string)
    requires now != ""
    ensures Legal(Initial(), [Join(u), Elect(u), Start(u, map[], map[]), Acquire(u, lock, now)])
    ensures Inside(Run(Initial(), [Join(u), Elect(u), Start(u, map[], map[]), Acquire(u, lock, now)]), u, lock)
  {
    var s0 := Initial();
    var s1 := Apply(s0, Join(u));
    var s2 := Apply(s1, Elect(u));
    InitialInv();
    StepKeepsInv(s0, Join(u));
    StepKeepsInv(s1, Elect(u));
    StepKeepsInv(s2, Start(u, map[], map[]));
    var s3 := Apply(s2, Start(u, map[], map[]));
    StartIsFresh(s2, u, map[], map[]);
    PeerEntries(map[], u);
    LoneLeaderEnters(s3, u, lock, now);
    RunOfFour(s0, Join(u), Elect(u), Start(u, map[], map[]), Acquire(u, lock, now));
  }
}
