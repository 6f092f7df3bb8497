/**
 Admission of swarm runs. A request that wants to run a swarm takes the `active` lock,
 is admitted only if no run is active and the service is idle, and holds a guard; the
 service then owns a task that can outlive the request, because a client may drop the
 request while the task still cleans up.

 The steps are the atomic actions of requests, tasks and cancels of all sessions.
 */
module SwarmAdmission {

  /** A run and its cancel flag, by identity. */
  type Run = nat

  datatype Step =
    | Admit(session: string, run: Run)
    | Refuse(session: string)
    | Start(run: Run)
    | TaskEnd(run: Run)
    | Release(run: Run)
    | Cancel(session: string)
    | Shutdown

  /**
   `active` and `busy` are what the program stores. The rest is what is true of the
   requests: whose guard is held and for which session, which runs reached the service,
   and which tasks are alive.
   */
  datatype State = State(
    active: map<string, Run>,
    busy: bool,
    cancelled: set<Run>,
    holders: map<Run, string>,
    started: set<Run>,
    tasks: set<Run>,
    used: set<Run>)

  const INITIAL := State(map[], false, {}, map[], {}, {}, {})

  predicate MayAdmit(s: State) {
    s.active == map[] && !s.busy
  }

  predicate Enabled(s: State, step: Step) {
    match step
    case Admit(_, run) => MayAdmit(s) && run !in s.used
    case Refuse(_) => !MayAdmit(s)
    case Start(run) => run in s.holders && run !in s.started
    case TaskEnd(run) => run in s.tasks
    case Release(run) => run in s.holders
    case _ => true
  }

  function Apply(s: State, step: Step): State
    requires Enabled(s, step)
  {
    match step
    case Admit(session, run) =>
      s.(active := s.active[session := run], holders := s.holders[run := session], used := s.used + {run})
    case Refuse(_) => s
    case Start(run) =>
      // compare_exchange(false, true): a busy service refuses and owns no task
      if s.busy then s.(started := s.started + {run})
      else s.(busy := true, started := s.started + {run}, tasks := s.tasks + {run})
    case TaskEnd(run) => s.(busy := false, tasks := s.tasks - {run})
    case Release(run) =>
      s.(cancelled := s.cancelled + {run}, active := s.active - {s.holders[run]}, holders := s.holders - {run})
    case Cancel(session) =>
      if session in s.active then s.(cancelled := s.cancelled + {s.active[session]}) else s
    case Shutdown => s.(cancelled := s.cancelled + s.active.Values)
  }

  predicate Allowed(steps: seq<Step>)
    decreases |steps|, 0
  {
    steps == [] ||
    var before := steps[..|steps| - 1];
    Allowed(before) && Enabled(After(before), steps[|steps| - 1])
  }

  function After(steps: seq<Step>): State
    requires Allowed(steps)
    decreases |steps|, 1
  {
    if steps == [] then INITIAL else Apply(After(steps[..|steps| - 1]), steps[|steps| - 1])
  }

  ghost predicate AtMostOne<T(!new)>(s: set<T>) {
    forall a, b :: a in s && b in s ==> a == b
  }

  /** The inductive invariant of the protocol. */
  ghost predicate Inv(s: State) {
    // the registry mirrors the guards, of which there is at most one
    && (forall run :: run in s.holders ==> s.holders[run] in s.active && s.active[s.holders[run]] == run)
    && (forall session :: session in s.active ==> s.active[session] in s.holders && s.holders[s.active[session]] == session)
    && AtMostOne(s.holders.Keys) && AtMostOne(s.active.Keys)
    // the service is busy exactly while its one task is alive
    && (s.busy <==> s.tasks != {}) && AtMostOne(s.tasks)
    // a run that holds the guard and has not started finds the service idle
    && (forall run :: run in s.holders && run !in s.started ==> !s.busy)
    // a task whose request has gone was told to stop
    && (forall run :: run in s.tasks && run !in s.holders ==> run in s.cancelled)
    && (forall run :: run in s.tasks && run in s.holders ==> run in s.started)
    && s.holders.Keys <= s.used && s.tasks <= s.used
  }

  lemma StepKeepsInv(s: State, step: Step)
    requires Inv(s) && Enabled(s, step)
    ensures Inv(Apply(s, step))
  {
    var s' := Apply(s, step);
    match step
    case Admit(session, run) =>
      assert s.holders.Keys == {};
    case Release(run) =>
      assert s.active[s.holders[run]] == run;
      assert s'.active.Keys == {} && s'.holders.Keys == {};
    case TaskEnd(run) =>
      assert s'.tasks == {};
    case _ =>
  }

  lemma {:induction false} EveryRunInv(steps: seq<Step>)
    requires Allowed(steps)
    ensures Inv(After(steps))
  {
    if steps != [] {
      EveryRunInv(steps[..|steps| - 1]);
      StepKeepsInv(After(steps[..|steps| - 1]), steps[|steps| - 1]);
    }
  }

  // --------------------------------------------------------- what the trace alone says

  ghost predicate Admitted(steps: seq<Step>, run: Run) {
    exists session :: Admit(session, run) in steps
  }

  ghost predicate TraceInv(s: State, steps: seq<Step>) {
    GuardTrace(s, steps) && TaskTrace(s, steps)
  }

  ghost predicate GuardTrace(s: State, steps: seq<Step>) {
    && (forall run :: run in s.used <==> Admitted(steps, run))
    && (forall run :: run in s.holders <==> Admitted(steps, run) && Release(run) !in steps)
    && (forall run :: Release(run) in steps ==> run in s.used)
  }

  ghost predicate TaskTrace(s: State, steps: seq<Step>) {
    && (forall run :: run in s.started <==> Start(run) in steps)
    && (forall run :: run in s.tasks <==> Start(run) in steps && TaskEnd(run) !in steps)
    && s.started <= s.used
    && (forall run :: TaskEnd(run) in steps ==> run in s.started)
  }

  lemma AdmittedAppend(steps: seq<Step>, step: Step, run: Run)
    ensures Admitted(steps + [step], run) <==> Admitted(steps, run) || (step.Admit? && step.run == run)
  {
    if session :| Admit(session, run) in steps {
      assert Admit(session, run) in steps + [step];
    }
    if step.Admit? && step.run == run {
      assert Admit(step.session, run) in steps + [step];
    }
  }

  lemma StepKeepsTrace(s: State, steps: seq<Step>, step: Step)
    requires Inv(s) && TraceInv(s, steps) && Enabled(s, step)
    ensures TraceInv(Apply(s, step), steps + [step])
  {
    StepKeepsGuardTrace(s, steps, step);
    StepKeepsTaskTrace(s, steps, step);
  }

  lemma StepKeepsTaskTrace(s: State, steps: seq<Step>, step: Step)
    requires Inv(s) && TaskTrace(s, steps) && Enabled(s, step)
    ensures TaskTrace(Apply(s, step), steps + [step])
  {
    forall other: Step
      ensures other in steps + [step] <==> other in steps || other == step
    {
    }
  }

  lemma StepKeepsGuardTrace(s: State, steps: seq<Step>, step: Step)
    requires Inv(s) && GuardTrace(s, steps) && Enabled(s, step)
    ensures GuardTrace(Apply(s, step), steps + [step])
  {
    forall run
      ensures Admitted(steps + [step], run) <==> Admitted(steps, run) || (step.Admit? && step.run == run)
    {
      AdmittedAppend(steps, step, run);
    }
    forall other: Step
      ensures other in steps + [step] <==> other in steps || other == step
    {
    }
  }

  lemma {:induction false} EveryRunTrace(steps: seq<Step>)
    requires Allowed(steps)
    ensures TraceInv(After(steps), steps)
  {
    if steps != [] {
      var before, last := steps[..|steps| - 1], steps[|steps| - 1];
      EveryRunTrace(before);
      EveryRunInv(before);
      StepKeepsTrace(After(before), before, last);
      assert before + [last] == steps;
    }
  }

  /** The i-th step tells the run to stop: its guard is dropped, or its session or the host is cancelled. */
  ghost predicate Stops(steps: seq<Step>, i: int, run: Run) {
    && 0 <= i < |steps|
    && (steps[i] == Release(run)
        || exists session :: Holds(steps[..i], session, run) && (steps[i] == Cancel(session) || steps[i] == Shutdown))
  }

  /** The run was admitted for the session and its guard is still held. */
  ghost predicate Holds(steps: seq<Step>, session: string, run: Run) {
    Admit(session, run) in steps && Release(run) !in steps
  }

  ghost predicate CancelTrace(s: State, steps: seq<Step>) {
    && (forall session, run :: run in s.holders && s.holders[run] == session <==> Holds(steps, session, run))
    && (forall session, run :: Admit(session, run) in steps ==> run in s.used)
    && forall run :: run in s.cancelled <==> exists i :: Stops(steps, i, run)
  }

  lemma StopsAppended(steps: seq<Step>, step: Step, run: Run)
    ensures (exists i :: Stops(steps + [step], i, run)) <==>
            (exists i :: Stops(steps, i, run)) || Stops(steps + [step], |steps|, run)
  {
    var after := steps + [step];
    forall i | 0 <= i < |steps|
      ensures Stops(after, i, run) <==> Stops(steps, i, run)
    {
      assert after[..i] == steps[..i] && after[i] == steps[i];
    }
  }

  lemma HoldsAppended(steps: seq<Step>, step: Step, session: string, run: Run)
    ensures Holds(steps + [step], session, run) <==>
            (Holds(steps, session, run) || (step == Admit(session, run) && Release(run) !in steps)) && step != Release(run)
  {
  }

  lemma StepKeepsHolders(s: State, steps: seq<Step>, step: Step, session: string, run: Run)
    requires GuardTrace(s, steps) && CancelTrace(s, steps) && Enabled(s, step)
    ensures var s' := Apply(s, step);
      run in s'.holders && s'.holders[run] == session <==> Holds(steps + [step], session, run)
  {
    HoldsAppended(steps, step, session, run);
    assert run in s.holders && s.holders[run] == session <==> Holds(steps, session, run);
  }

  lemma StepKeepsCancelled(s: State, steps: seq<Step>, step: Step, run: Run)
    requires Inv(s) && CancelTrace(s, steps) && Enabled(s, step)
    ensures run in Apply(s, step).cancelled <==> exists i :: Stops(steps + [step], i, run)
  {
    StopsAppended(steps, step, run);
    var after := steps + [step];
    assert after[..|steps|] == steps && after[|steps|] == step;
    match step
    case Cancel(session) =>
      assert run in s.holders && s.holders[run] == session <==> Holds(steps, session, run);
    case Shutdown =>
      if session :| Holds(steps, session, run) {
        assert s.active[session] == run;
      }
      if session :| session in s.active && s.active[session] == run {
        assert Holds(steps, session, run);
      }
    case _ =>
  }

  /**
   In every reachable state a run's flag is set exactly when its guard was dropped, or its
   session was cancelled or the host shut down while the guard was held.
   */
  lemma {:induction false} EveryRunCancels(steps: seq<Step>)
    requires Allowed(steps)
    ensures CancelTrace(After(steps), steps)
  {
    if steps != [] {
      var before, last := steps[..|steps| - 1], steps[|steps| - 1];
      EveryRunCancels(before);
      EveryRunInv(before);
      EveryRunTrace(before);
      assert before + [last] == steps;
      var s := After(before);
      forall session, run
        ensures run in Apply(s, last).holders && Apply(s, last).holders[run] == session <==> Holds(steps, session, run)
      {
        StepKeepsHolders(s, before, last, session, run);
      }
      forall run
        ensures run in Apply(s, last).cancelled <==> exists i :: Stops(steps, i, run)
      {
        StepKeepsCancelled(s, before, last, run);
      }
    }
  }

  lemma {:induction false} PrefixAllowed(steps: seq<Step>, n: nat)
    requires Allowed(steps) && n <= |steps|
    ensures Allowed(steps[..n])
  {
    if n == |steps| {
      assert steps[..n] == steps;
    } else {
      var before := steps[..|steps| - 1];
      PrefixAllowed(before, n);
      assert before[..n] == steps[..n];
    }
  }

  /**
   Main result: whatever the interleaving, when a run is admitted every run admitted before
   it has given up its guard, and any detached task of theirs that had started has ended.
   */
  lemma RunsExcludeEachOther(steps: seq<Step>, i: nat, j: nat)
    requires Allowed(steps) && i < j < |steps| && steps[i].Admit? && steps[j].Admit?
    ensures steps[i].run != steps[j].run
    ensures Release(steps[i].run) in steps[..j]
    ensures Start(steps[i].run) in steps[..j] ==> TaskEnd(steps[i].run) in steps[..j]
  {
    var run, before := steps[i].run, steps[..j];
    PrefixAllowed(steps, j);
    PrefixAllowed(steps, j + 1);
    assert steps[..j + 1][..j] == before;
    EveryRunInv(before);
    EveryRunTrace(before);
    assert before[i] == Admit(steps[i].session, run);
    assert Admitted(before, run);
    assert After(before).holders.Keys == {};
    assert run !in After(before).holders;
  }

  /** The service never turns an admitted run away for being busy. */
  lemma AdmittedRunStarts(steps: seq<Step>, run: Run)
    requires Allowed(steps) && Enabled(After(steps), Start(run))
    ensures !After(steps).busy
    ensures Apply(After(steps), Start(run)).tasks == {run}
  {
    EveryRunInv(steps);
    assert After(steps).tasks == {};
  }

  /** A task whose request was dropped has been told to stop, and until it ends no run is admitted. */
  lemma OrphanTaskIsCancelled(steps: seq<Step>, run: Run)
    requires Allowed(steps) && Start(run) in steps && TaskEnd(run) !in steps && Release(run) in steps
    ensures run in After(steps).cancelled
    ensures !MayAdmit(After(steps))
  {
    EveryRunInv(steps);
    EveryRunTrace(steps);
    assert run in After(steps).tasks;
  }

  /** Dropping a guard frees admission for everyone except while its detached task is alive. */
  lemma ReleaseFrees(steps: seq<Step>, run: Run)
    requires Allowed(steps) && Enabled(After(steps), Release(run))
    ensures var s := Apply(After(steps), Release(run));
      s.active == map[] && (MayAdmit(s) <==> run !in s.tasks)
  {
    EveryRunInv(steps);
    var s := After(steps);
    assert s.active.Keys == {s.holders[run]};
    if t :| t in s.tasks {
      if t != run {
        assert t !in s.holders;
        EveryRunTrace(steps);
        TaskOfHolder(steps, run, t);
      }
    }
  }

  lemma TaskOfHolder(steps: seq<Step>, run: Run, task: Run)
    requires Allowed(steps) && run in After(steps).holders && task in After(steps).tasks
    ensures task == run
    decreases |steps|
  {
    var before, last := steps[..|steps| - 1], steps[|steps| - 1];
    EveryRunInv(before);
    EveryRunInv(steps);
    var s := After(before);
    if run in s.holders && task in s.tasks {
      TaskOfHolder(before, run, task);
    }
  }

  // ------------------------------------------------------------------ the program's form

  /** The host's shared state; each method body is one critical section. */
  class SwarmHost {
    var active: map<string, Run>
    var busy: bool
    var cancelled: set<Run>
    ghost var history: seq<Step>

    ghost predicate Valid()
      reads this
    {
      && Allowed(history)
      && After(history).active == active
      && After(history).busy == busy
      && After(history).cancelled == cancelled
    }

    constructor ()
      ensures Valid() && history == []
    {
      active, busy, cancelled, history := map[], false, {}, [];
    }

    ghost method Record(step: Step)
      requires Allowed(history) && Enabled(After(history), step)
      modifies `history
      ensures history == old(history) + [step] && Allowed(history)
      ensures After(history) == Apply(After(old(history)), step)
    {
      history := history + [step];
      assert history[..|history| - 1] == old(history);
    }

    /** The admission block of `swarm_command`. */
    method TryAdmit(session: string, run: Run) returns (admitted: bool)
      requires Valid() && run !in After(history).used
      modifies this
      ensures Valid()
      ensures history == old(history) + [if admitted then Admit(session, run) else Refuse(session)]
      ensures admitted <==> old(active) == map[] && !old(busy)
    {
      if active != map[] || busy {
        Record(Refuse(session));
        return false;
      }
      active := active[session := run];
      Record(Admit(session, run));
      admitted := true;
    }

    /** The service claims its busy flag for the run. */
    method StartTask(run: Run) returns (started: bool)
      requires Valid() && Enabled(After(history), Start(run))
      modifies this
      ensures Valid() && started
      ensures history == old(history) + [Start(run)]
    {
      AdmittedRunStarts(history, run);
      started := !busy;
      busy := true;
      Record(Start(run));
    }

    method EndTask(run: Run)
      requires Valid() && Enabled(After(history), TaskEnd(run))
      modifies this
      ensures Valid()
      ensures history == old(history) + [TaskEnd(run)]
    {
      busy := false;
      Record(TaskEnd(run));
    }

    /** Dropping the guard: the flag is cancelled and the session's entry removed. */
    method DropGuard(session: string, run: Run)
      requires Valid() && run in After(history).holders && After(history).holders[run] == session
      modifies this
      ensures Valid() && active == map[] && cancelled == old(cancelled) + {run}
      ensures history == old(history) + [Release(run)]
    {
      ReleaseFrees(history, run);
      cancelled := cancelled + {run};
      active := active - {session};
      Record(Release(run));
    }

    method CancelSession(session: string) returns (found: bool)
      requires Valid()
      modifies this
      ensures Valid() && (found <==> session in old(active))
      ensures cancelled == old(cancelled) + (if found then {old(active)[session]} else {})
      ensures history == old(history) + [Cancel(session)]
    {
      found := session in active;
      if found {
        cancelled := cancelled + {active[session]};
      }
      Record(Cancel(session));
    }
  }
}
