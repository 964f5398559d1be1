/**
 * The session operations inside their mutex: callers arrive at any time, promise jobs and storage calls interleave, and
 * the process may die. Shown: an operation begins only when none runs, so a run of the whole is one of SessionStore.
 */
module SessionMutex {
  import opened Text
  import J = PromiseJobs
  import M = PromiseMutex
  import S = SessionStore

  /** A caller has asked for an operation, runs it, or has its ending, which is an entry of the log. */
  datatype Task = Asked(op: S.Op) | Running | Ended(entry: nat)

  datatype System = System(mutex: J.State, tasks: seq<Task>, session: S.State)

  datatype Event =
    | Arrive(op: S.Op)
    | Job(index: nat)
    | Begin(p: nat)
    | Call(p: nat, call: S.Event)    // the pending storage call of the operation of p settles
    | Leave(p: nat)
    | Crash                          // the process dies and starts again: callers and map are lost, the store is kept

  /** One cache, so one key of the map. */
  const KEY: nat := 0

  function Start(session: S.State): System { System(J.Init(J.Early), [], session) }

  predicate Inside(sys: System, p: nat) {
    p < |sys.tasks| && p < |sys.mutex.callers| && sys.mutex.callers[p].phase.Critical?
  }

  /** Nothing here says that no other operation runs. */
  predicate Enabled(sys: System, e: Event) {
    match e
    case Arrive(_) => true
    case Job(i) => J.Enabled(sys.mutex, J.RunJob(i))
    case Begin(p) => Inside(sys, p) && sys.tasks[p].Asked?
    case Call(p, call) => Inside(sys, p) && sys.tasks[p].Running? && call.Call? && S.Enabled(sys.session, call)
    case Leave(p) => Inside(sys, p) && sys.tasks[p].Ended?
    case Crash => true
  }

  function Step(sys: System, e: Event): System
    requires Enabled(sys, e)
  {
    match e
    case Arrive(op) => sys.(mutex := J.Step(sys.mutex, J.Start(KEY)), tasks := sys.tasks + [Asked(op)])
    case Job(i) => sys.(mutex := J.Step(sys.mutex, J.RunJob(i)))
    case Begin(p) => sys.(tasks := sys.tasks[p := Running], session := S.BeginOp(sys.session, sys.tasks[p].op))
    case Call(p, call) =>
      var session := S.Step(sys.session, call);
      sys.(tasks := sys.tasks[p := if session.at.Idle? then Ended(|sys.session.log|) else Running], session := session)
    case Leave(p) => sys.(mutex := J.Step(sys.mutex, J.Exit(p)))
    case Crash => Start(S.Step(sys.session, S.Crash))
  }

  predicate Runs(sys: System, es: seq<Event>, sys': System)
    decreases |es|
  {
    if es == [] then sys == sys' else Enabled(sys, es[0]) && Runs(Step(sys, es[0]), es[1..], sys')
  }

  // ---------------------------------------------------------------- the invariant

  /** A caller that waits has not begun, one that is done has its ending, and the one that runs is inside. */
  predicate TaskOk(sys: System, p: nat)
    requires p < |sys.tasks| && p < |sys.mutex.callers|
  {
    var phase := sys.mutex.callers[p].phase;
    && (phase.Waiting? ==> sys.tasks[p].Asked?)
    && (phase.Done? ==> sys.tasks[p].Ended?)
    && (sys.tasks[p].Running? ==> phase.Critical? && !sys.session.at.Idle?)
    && (sys.tasks[p].Ended? ==> sys.tasks[p].entry < |sys.session.log|)
  }

  /** Endings are logged in the order in which the callers arrived. */
  predicate EndsInOrder(tasks: seq<Task>) {
    forall p, q :: 0 <= p < q < |tasks| && tasks[p].Ended? && tasks[q].Ended? ==> tasks[p].entry < tasks[q].entry
  }

  predicate SomeoneRuns(sys: System) {
    exists p :: 0 <= p < |sys.tasks| && sys.tasks[p].Running?
  }

  ghost predicate Inv(sys: System) {
    && J.Inv(sys.mutex) && sys.mutex.variant.Early?
    && |sys.mutex.callers| == |sys.tasks|
    && (forall p :: 0 <= p < |sys.tasks| ==> sys.mutex.callers[p].key == KEY)
    && (forall p {:trigger TaskOk(sys, p)} :: 0 <= p < |sys.tasks| ==> TaskOk(sys, p))
    && (sys.session.at.Idle? || SomeoneRuns(sys))
    && EndsInOrder(sys.tasks)
  }

  lemma StartInv(session: S.State)
    requires session.at.Idle?
    ensures Inv(Start(session))
  {
    J.InitInv(J.Early);
  }

  lemma OneInside(sys: System, p: nat, q: nat)
    requires Inv(sys) && Inside(sys, p) && Inside(sys, q)
    ensures p == q
  {
    assert J.QueueOk(sys.mutex.callers, p) && J.QueueOk(sys.mutex.callers, q);
  }

  /** Everybody who arrived before the caller inside has left, and nobody who arrived later has begun. */
  lemma OthersOutside(sys: System, p: nat, q: nat)
    requires Inv(sys) && Inside(sys, p) && q < |sys.tasks| && q != p
    ensures if q < p then sys.tasks[q].Ended? else sys.tasks[q].Asked?
  {
    assert J.QueueOk(sys.mutex.callers, p) && J.QueueOk(sys.mutex.callers, q);
    assert TaskOk(sys, q);
    if q > p { assert sys.mutex.callers[p].phase.Critical?; }
  }

  /** An operation begins only when none runs. */
  lemma BeginsIdle(sys: System, p: nat)
    requires Inv(sys) && Inside(sys, p) && sys.tasks[p].Asked?
    ensures sys.session.at.Idle?
  {
    if SomeoneRuns(sys) {
      var q :| 0 <= q < |sys.tasks| && sys.tasks[q].Running?;
      assert TaskOk(sys, q);
      OneInside(sys, p, q);
    }
  }

  /** Either the operation goes on, or it has ended and its ending is logged. */
  predicate EndsLogged(st: S.State, st': S.State) {
    |st'.log| == |st.log| + if st'.at.Idle? then 1 else 0
  }

  lemma ClearEnds(st: S.State, call: S.Event)
    requires call.Call? && S.Enabled(st, call) && (st.at.ClearMark? || st.at.ClearDelete? || st.at.ClearUnmark?)
    ensures EndsLogged(st, S.Step(st, call))
  {
    hide S.Written, S.Removed, S.CLEARED;
  }

  lemma SaveEnds(st: S.State, call: S.Event)
    requires call.Call? && S.Enabled(st, call)
    requires st.at.SaveMark? || st.at.SavePut? || st.at.SaveDelete? || st.at.SaveUnmark?
    ensures EndsLogged(st, S.Step(st, call))
  {
    hide S.Written, S.Removed, S.LEGACY;
  }

  lemma LegacyEnds(st: S.State, call: S.Event)
    requires call.Call? && S.Enabled(st, call)
    requires st.at.LegacyCheck? || st.at.LegacyMark? || st.at.LegacyDelete? || st.at.LegacyUnmark?
    ensures EndsLogged(st, S.Step(st, call))
  {
    hide S.HasLegacy, S.Written, S.Removed, S.LEGACY;
  }

  lemma CallEnds(st: S.State, call: S.Event)
    requires call.Call? && S.Enabled(st, call)
    ensures EndsLogged(st, S.Step(st, call))
  {
    if st.at.ClearMark? || st.at.ClearDelete? || st.at.ClearUnmark? {
      ClearEnds(st, call);
    } else if st.at.SaveMark? || st.at.SavePut? || st.at.SaveDelete? || st.at.SaveUnmark? {
      SaveEnds(st, call);
    } else if st.at.ReadMarker? || st.at.ReadSession? || st.at.RestoreRecheck? {
      ReadEnds(st, call);
    } else {
      LegacyEnds(st, call);
    }
  }

  lemma ReadEnds(st: S.State, call: S.Event)
    requires call.Call? && S.Enabled(st, call) && (st.at.ReadMarker? || st.at.ReadSession? || st.at.RestoreRecheck?)
    ensures EndsLogged(st, S.Step(st, call))
  {
    hide S.HasSession;
  }

  // ---------------------------------------------------------------- each step keeps the invariant

  lemma TaskKept(sys: System, e: Event, p: nat)
    requires Inv(sys) && Enabled(sys, e) && p < |sys.tasks| && !e.Crash?
    ensures p < |Step(sys, e).tasks| && p < |Step(sys, e).mutex.callers| && TaskOk(Step(sys, e), p)
    ensures Step(sys, e).mutex.callers[p].key == KEY
  {
    hide J.QueueOk, J.ChainOk, J.ReactionsOk, J.TailsOk, J.JobsOk, J.BindFirst, J.Inv, S.CallStep;
    assert TaskOk(sys, p);
    match e {
      case Arrive(_) =>
      case Job(i) => EntersFromWaiting(sys.mutex, i);
      case Begin(q) => if sys.tasks[p].Running? { OneInside(sys, p, q); }
      case Call(q, call) =>
        CallEnds(sys.session, call);
        if p != q { OthersOutside(sys, q, p); }
      case Leave(q) =>
    }
  }

  /** A job moves at most one caller, from waiting to inside. */
  lemma EntersFromWaiting(st: J.State, i: nat)
    requires J.Inv(st) && st.variant.Early? && J.Enabled(st, J.RunJob(i))
    ensures var st' := J.Step(st, J.RunJob(i));
            && |st'.callers| == |st.callers|
            && forall p :: 0 <= p < |st.callers| ==>
                 && st'.callers[p].key == st.callers[p].key
                 && (st'.callers[p].phase == st.callers[p].phase
                   || (st.callers[p].phase.Waiting? && st'.callers[p].phase.Critical?))
  {
    J.HeadIsDue(st, i);
  }

  lemma MutexKept(sys: System, e: Event)
    requires Inv(sys) && Enabled(sys, e) && !e.Crash?
    ensures J.Inv(Step(sys, e).mutex) && Step(sys, e).mutex.variant.Early?
    ensures |Step(sys, e).mutex.callers| == |Step(sys, e).tasks|
  {
    hide J.QueueOk, J.ChainOk, J.ReactionsOk, J.TailsOk, J.JobsOk, J.BindFirst, J.Inv, S.CallStep;
    match e {
      case Arrive(_) => M.StepInv(sys.mutex, J.Start(KEY));
      case Job(i) =>
        M.StepInv(sys.mutex, J.RunJob(i));
        EntersFromWaiting(sys.mutex, i);
      case Leave(p) => M.StepInv(sys.mutex, J.Exit(p));
      case _ =>
    }
  }

  lemma OrderKept(sys: System, e: Event)
    requires Inv(sys) && Enabled(sys, e) && !e.Crash?
    ensures EndsInOrder(Step(sys, e).tasks)
    ensures Step(sys, e).session.at.Idle? || SomeoneRuns(Step(sys, e))
  {
    hide J.Inv, J.Step, S.CallStep;
    var sys' := Step(sys, e);
    if e.Begin? {
      assert sys'.tasks[e.p].Running?;
    } else if e.Call? {
      CallEnds(sys.session, e.call);
      forall q | 0 <= q < |sys.tasks| && q != e.p
        ensures if q < e.p then sys.tasks[q].Ended? && sys.tasks[q].entry < |sys.session.log| else sys.tasks[q].Asked?
      {
        OthersOutside(sys, e.p, q);
        assert TaskOk(sys, q);
      }
      assert !sys'.session.at.Idle? ==> sys'.tasks[e.p].Running?;
    } else if SomeoneRuns(sys) {
      var p :| 0 <= p < |sys.tasks| && sys.tasks[p].Running?;
      assert sys'.tasks[p].Running?;
    }
  }

  lemma StepInv(sys: System, e: Event)
    requires Inv(sys) && Enabled(sys, e)
    ensures Inv(Step(sys, e))
  {
    if e.Crash? {
      StartInv(S.Step(sys.session, S.Crash));
    } else {
      hide J.Inv, J.Step, S.CallStep, EndsInOrder;
      MutexKept(sys, e);
      OrderKept(sys, e);
      var sys' := Step(sys, e);
      forall p | 0 <= p < |sys'.tasks|
        ensures TaskOk(sys', p) && sys'.mutex.callers[p].key == KEY
      {
        if p < |sys.tasks| { TaskKept(sys, e, p); } else { NewTask(sys, e); }
      }
    }
  }

  lemma NewTask(sys: System, e: Event)
    requires Inv(sys) && e.Arrive?
    ensures var sys' := Step(sys, e);
            var p := |sys.tasks|;
            p < |sys'.tasks| && p < |sys'.mutex.callers| && TaskOk(sys', p) && sys'.mutex.callers[p].key == KEY
  {
    hide J.Inv;
  }

  lemma {:induction false} RunInv(sys: System, es: seq<Event>, sys': System)
    requires Inv(sys) && Runs(sys, es, sys')
    ensures Inv(sys')
    decreases |es|
  {
    hide Inv, Step, Enabled;
    if es != [] {
      StepInv(sys, es[0]);
      RunInv(Step(sys, es[0]), es[1..], sys');
    }
  }

  // ---------------------------------------------------------------- the whole is a run of the session machine

  /** What a step of the whole is to the session: nothing, or one event that the session machine allows. */
  lemma StepFollows(sys: System, e: Event) returns (se: seq<S.Event>)
    requires Inv(sys) && Enabled(sys, e)
    ensures S.Runs(sys.session, se, Step(sys, e).session)
  {
    hide J.Inv, J.Step, S.BeginOp, S.CallStep, S.PointOk;
    var st' := Step(sys, e).session;
    se := [];
    match e {
      case Begin(p) =>
        BeginsIdle(sys, p);
        se := [S.Begin(sys.tasks[p].op)];
      case Call(_, call) => se := [call];
      case Crash => se := [S.Crash];
      case _ =>
    }
    assert S.Runs(st', [], st');
    assert se != [] ==> se[1..] == [] && S.Enabled(sys.session, se[0]) && S.Step(sys.session, se[0]) == st';
  }

  lemma {:induction false} RunsConcat(a: S.State, xs: seq<S.Event>, b: S.State, ys: seq<S.Event>, c: S.State)
    requires S.Runs(a, xs, b) && S.Runs(b, ys, c)
    ensures S.Runs(a, xs + ys, c)
    decreases |xs|
  {
    hide S.Step, S.Enabled;
    if xs == [] {
      assert xs + ys == ys;
    } else {
      RunsConcat(S.Step(a, xs[0]), xs[1..], b, ys, c);
      assert (xs + ys)[1..] == xs[1..] + ys;
    }
  }

  /** Whatever interleaves, the store goes through a run of the session machine: operations never overlap. */
  lemma {:induction false} RunFollows(sys: System, es: seq<Event>, sys': System) returns (se: seq<S.Event>)
    requires Inv(sys) && Runs(sys, es, sys')
    ensures S.Runs(sys.session, se, sys'.session)
    decreases |es|
  {
    hide Inv, Step, Enabled, S.Step, S.Enabled;
    se := [];
    if es != [] {
      StepInv(sys, es[0]);
      var first := StepFollows(sys, es[0]);
      var rest := RunFollows(Step(sys, es[0]), es[1..], sys');
      RunsConcat(sys.session, first, Step(sys, es[0]).session, rest, sys'.session);
      se := first + rest;
    } else {
      assert S.Runs(sys.session, [], sys.session);
    }
  }

  /** What an event is to the mutex. */
  function ToMutex(es: seq<Event>): seq<J.Event> {
    if es == [] then []
    else
      (match es[0]
       case Arrive(_) => [J.Start(KEY)]
       case Job(i) => [J.RunJob(i)]
       case Leave(p) => [J.Exit(p)]
       case _ => []) + ToMutex(es[1..])
  }

  /** Between two crashes callers take turns as in a run of the mutex, so all that holds of its runs holds here. */
  lemma {:induction false} MutexFollows(sys: System, es: seq<Event>, sys': System)
    requires Inv(sys) && Runs(sys, es, sys') && forall i :: 0 <= i < |es| ==> !es[i].Crash?
    ensures J.Runs(sys.mutex, ToMutex(es), sys'.mutex)
    decreases |es|
  {
    assert sys.mutex.variant.Early?;
    hide Inv, J.Step;
    if es != [] {
      StepInv(sys, es[0]);
      MutexFollows(Step(sys, es[0]), es[1..], sys');
      var rest := ToMutex(es[1..]);
      assert ToMutex(es) == rest || (|ToMutex(es)| == |rest| + 1 && ToMutex(es)[1..] == rest);
    }
  }

  /** Over every interleaving at most one operation runs, and one begins only when none does. */
  lemma OneOperation(session: S.State, es: seq<Event>, sys: System, p: nat, q: nat)
    requires S.Initial(session) && Runs(Start(session), es, sys) && p < |sys.tasks| && q < |sys.tasks|
    requires sys.tasks[p].Running?
    ensures sys.tasks[q].Running? ==> p == q
    ensures !Enabled(sys, Begin(q))
  {
    StartInv(session);
    RunInv(Start(session), es, sys);
    assert TaskOk(sys, p) && TaskOk(sys, q);
    if Inside(sys, q) { OneInside(sys, p, q); }
  }

  /** What a caller was given. */
  function Given(sys: System, q: nat): Option<S.Ending>
    requires q < |sys.tasks|
  {
    if sys.tasks[q].Ended? && sys.tasks[q].entry < |sys.session.log| then Some(sys.session.log[sys.tasks[q].entry])
      else None
  }

  /** A caller is given a session only if its save finished. */
  lemma GivenOnlyFinished(session: S.State, es: seq<Event>, sys: System, q: nat)
    requires S.Initial(session) && Runs(Start(session), es, sys) && q < |sys.tasks|
    ensures sys.tasks[q].Ended? ==> Given(sys, q).Some?
    ensures Given(sys, q).Some? && Given(sys, q).value.Returned? ==> Given(sys, q).value.save in sys.session.finished
  {
    StartInv(session);
    RunInv(Start(session), es, sys);
    assert TaskOk(sys, q);
    var se := RunFollows(Start(session), es, sys);
    if Given(sys, q).Some? && Given(sys, q).value.Returned? {
      S.ReturnedOnlyFinished(session, se, sys.session, sys.tasks[q].entry);
    }
  }

  /**
   * No resurrection: once the operation of some caller has written the marker, nobody is given a session of an earlier
   * save any more, whoever arrives, in whatever order storage calls settle, and whenever the process dies.
   */
  lemma NothingOldIsGiven(session: S.State, before: seq<Event>, sys: System, p: nat, call: S.Event,
                          after: seq<Event>, sys': System, q: nat)
    requires S.Initial(session) && Runs(Start(session), before, sys) && Enabled(sys, Call(p, call))
    requires (sys.session.at.ClearMark? || sys.session.at.SaveMark?) && (call.ok || call.takes)
    requires Runs(Step(sys, Call(p, call)), after, sys') && q < |sys'.tasks| && Given(sys', q).Some?
    requires sys'.tasks[q].entry >= |Step(sys, Call(p, call)).session.log| && Given(sys', q).value.Returned?
    ensures Given(sys', q).value.save
            >= if sys.session.at.SaveMark? then sys.session.at.n else sys.session.saves
  {
    StartInv(session);
    RunInv(Start(session), before, sys);
    StepInv(sys, Call(p, call));
    var first := RunFollows(Start(session), before, sys);
    var rest := RunFollows(Step(sys, Call(p, call)), after, sys');
    S.NoResurrection(session, first, sys.session, call, rest, sys'.session, sys'.tasks[q].entry);
  }

  /** Whoever calls after a caller whose clear succeeds is given only a session saved later. */
  lemma LaterCallersAfterClear(session: S.State, before: seq<Event>, sys: System, p: nat, call: S.Event,
                               after: seq<Event>, sys': System, q: nat)
    requires S.Initial(session) && Runs(Start(session), before, sys) && Enabled(sys, Call(p, call))
    requires Step(sys, Call(p, call)).session.log == sys.session.log + [S.ClearResult(true)]
    requires Runs(Step(sys, Call(p, call)), after, sys') && p < q < |sys'.tasks|
    requires sys'.tasks[p] == Ended(|sys.session.log|)
    requires Given(sys', q).Some? && Given(sys', q).value.Returned?
    ensures Given(sys', q).value.save >= sys.session.saves
  {
    StartInv(session);
    RunInv(Start(session), before, sys);
    StepInv(sys, Call(p, call));
    RunInv(Step(sys, Call(p, call)), after, sys');
    var first := RunFollows(Start(session), before, sys);
    var rest := RunFollows(Step(sys, Call(p, call)), after, sys');
    S.ClearedMeansNull(session, first, sys.session, call, rest, sys'.session, sys'.tasks[q].entry);
  }

  /** Nothing keeps callers from arriving, or the process from dying, at any time. */
  lemma AnyTime(sys: System, op: S.Op)
    ensures Enabled(sys, Arrive(op)) && Enabled(sys, Crash)
  {
  }

  /** As long as a caller has not left, a job or a step of the caller inside is possible. */
  lemma NobodyHangs(session: S.State, es: seq<Event>, sys: System)
    requires S.Initial(session) && Runs(Start(session), es, sys) && !M.AllDone(sys.mutex)
    ensures exists e: Event :: !e.Arrive? && !e.Crash? && Enabled(sys, e)
  {
    StartInv(session);
    RunInv(Start(session), es, sys);
    M.SomebodyMoves(sys.mutex);
    if sys.mutex.jobs != [] {
      assert Enabled(sys, Job(0));
    } else {
      var p :| 0 <= p < |sys.mutex.callers| && sys.mutex.callers[p].phase.Critical?;
      assert TaskOk(sys, p);
      match sys.tasks[p] {
        case Asked(_) => assert Enabled(sys, Begin(p));
        case Ended(_) => assert Enabled(sys, Leave(p));
        case Running =>
          S.NeverStuck(sys.session);
          var call: S.Event :| call.Call? && call.ok && S.Enabled(sys.session, call);
          assert Enabled(sys, Call(p, call));
      }
    }
  }
}
