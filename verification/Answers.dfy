/**
  What units are told. A charm enters its critical section on the answer of `acquire`, and that answer
  can be True for a leader whose recorded grant is stale. Here it is shown that in the protocol no such
  answer is ever given, so mutual exclusion holds for the answers themselves.
 */
module Answers {
  import opened LockTables
  import opened Protocol
  import opened MutualExclusion

  /** `acquire` answers True exactly when the unit is then inside the lock. */
  lemma AnswerIsInside(s: System, u: string, lock: string, now: string)
    requires Inv(s) && Enabled(s, Acquire(u, lock, now))
    ensures Told(s.open[u], u, lock, now) <==> Inside(Apply(s, Acquire(u, lock, now)), u, lock)
  {
    var v, s' := s.open[u], Apply(s, Acquire(u, lock, now));
    StepKeepsInv(s, Acquire(u, lock, now));
    if v.leader {
      AcquireKeepsCurrent(s, u, lock, now);
    }
    assert Entry(s'.open[u].requests, u, lock).Some? ==>
      (u, lock, Entry(s'.open[u].requests, u, lock).value) in s'.drawn;
  }

  /** Once inside, a unit stays inside until its hook ends, whatever happens elsewhere. */
  lemma InsideStays(s: System, step: Step, u: string, lock: string)
    requires Inv(s) && Inside(s, u, lock) && Enabled(s, step)
    requires step != Commit(u) && step != Abort(u)
    ensures Inside(Apply(s, step), u, lock)
  {
    if step.Acquire? && step.unit == u {
      AcquireEntries(s.open[u], u, step.lock, step.now);
    } else if step.Handle? || step.Grant? {
      StepRegrants(s, step);
    }
  }

  /** An answer True is added; the end of a hook takes away what its unit has been told. */
  ghost function ToldStep(s: System, step: Step, told: set<(string, string)>): set<(string, string)>
    requires Enabled(s, step)
  {
    if step.Acquire? && Told(s.open[step.unit], step.unit, step.lock, step.now) then told + {(step.unit, step.lock)}
    else if step.Commit? || step.Abort? then set p | p in told && p.0 != step.unit
    else told
  }

  /** The pairs (unit, lock) of which the unit has been told True in the hook it still runs. */
  ghost function ToldBy(s: System, run: seq<Step>, told: set<(string, string)>): set<(string, string)>
    requires Legal(s, run)
    decreases |run|
  {
    if run == [] then told
    else
      ToldBy(Apply(s, run[0]), run[1..], ToldStep(s, run[0], told))
  }

  lemma ToldStepIsInside(s: System, step: Step, told: set<(string, string)>)
    requires Inv(s) && Enabled(s, step)
    requires forall u, l :: (u, l) in told ==> Inside(s, u, l)
    ensures forall u, l :: (u, l) in ToldStep(s, step, told) ==> Inside(Apply(s, step), u, l)
  {
    forall u, l | (u, l) in ToldStep(s, step, told) ensures Inside(Apply(s, step), u, l) {
      if (u, l) in told {
        InsideStays(s, step, u, l);
      } else {
        AnswerIsInside(s, step.unit, step.lock, step.now);
      }
    }
  }

  lemma {:induction false} ToldAreInside(s: System, run: seq<Step>, told: set<(string, string)>)
    requires Inv(s) && Legal(s, run)
    requires forall u, l :: (u, l) in told ==> Inside(s, u, l)
    ensures forall u, l :: (u, l) in ToldBy(s, run, told) ==> Inside(Run(s, run), u, l)
    ensures Inv(Run(s, run))
    decreases |run|
  {
    if run != [] {
      var step := run[0];
      StepKeepsInv(s, step);
      ToldStepIsInside(s, step, told);
      ToldAreInside(Apply(s, step), run[1..], ToldStep(s, step, told));
    }
  }

  /** Mutual exclusion of the answers: at no point of any run have two units both been told True for a
      lock in hooks that are still open. */
  lemma AnswersExclude(run: seq<Step>, u: string, v: string, lock: string)
    requires Legal(Initial(), run)
    requires (u, lock) in ToldBy(Initial(), run, {}) && (v, lock) in ToldBy(Initial(), run, {})
    ensures u == v
  {
    InitialInv();
    ToldAreInside(Initial(), run, {});
    InvExcludes(Run(Initial(), run), u, v, lock);
  }

  lemma {:induction false} ToldSnoc(s: System, run: seq<Step>, step: Step, told: set<(string, string)>)
    requires Legal(s, run) && Legal(s, run + [step]) && Enabled(Run(s, run), step)
    requires step.Acquire? && Told(Run(s, run).open[step.unit], step.unit, step.lock, step.now)
    ensures (step.unit, step.lock) in ToldBy(s, run + [step], told)
    decreases |run|
  {
    if run == [] {
      assert run + [step] == [step];
    } else {
      assert (run + [step])[0] == run[0] && (run + [step])[1..] == run[1..] + [step];
      ToldSnoc(Apply(s, run[0]), run[1..], step, ToldStep(s, run[0], told));
    }
  }

  /** The theorem is about something: the lone unit that is elected and asks is told True. */
  lemma SomeoneIsTold(u: string, lock: string, now: string)
    requires now != ""
    ensures var run := [Join(u), Elect(u), Start(u, map[], map[]), Acquire(u, lock, now)];
            Legal(Initial(), run) && (u, lock) in ToldBy(Initial(), run, {})
  {
    SomeoneGetsIn(u, lock, now);
    var front, last := [Join(u), Elect(u), Start(u, map[], map[])], Acquire(u, lock, now);
    var run := [Join(u), Elect(u), Start(u, map[], map[]), Acquire(u, lock, now)];
    assert front + [last] == run;
    LegalFront(Initial(), front, last);
    InitialInv();
    ToldAreInside(Initial(), front, {});
    AnswerIsInside(Run(Initial(), front), u, lock, now);
    ToldSnoc(Initial(), front, last, {});
  }

  lemma {:induction false} LegalFront(s: System, run: seq<Step>, step: Step)
    requires Legal(s, run + [step])
    ensures Legal(s, run) && Enabled(Run(s, run), step)
    ensures Run(s, run + [step]) == Apply(Run(s, run), step)
    decreases |run|
  {
    if run == [] {
      assert run + [step] == [step] && [step][1..] == [];
    } else {
      assert (run + [step])[0] == run[0] && (run + [step])[1..] == run[1..] + [step];
      LegalFront(Apply(s, run[0]), run[1..], step);
    }
  }
}
