/**
 * One-shot authorization records: each callback consumes the record saved under its state value inside the mutex,
 * by reading it, deleting it and only then returning it.
 */
module PendingAuthorization {
  import opened Text
  import J = PromiseJobs
  import M = PromiseMutex

  /**
   * Where a callback stands: nothing read yet, read (was there a record?), deleted, returned to its caller, or thrown.
   */
  datatype Stage = Todo | HasRead(found: bool) | Deleted | Returned | Thrown

  datatype Callback = Callback(state: string, stage: Stage)

  /**
   * `store` holds the state values with a saved record, `saved` those ever saved (a state value is never drawn twice),
   * `consumed` the log of records handed out.
   */
  datatype System = System(
    mutex: J.State,
    callbacks: seq<Callback>,
    store: set<string>,
    saved: set<string>,
    consumed: seq<string>)

  datatype Event =
    | Save(state: string)                           // the sign-in stores its record
    | Discard(state: string)                        // the sign-in gives up and deletes it, outside or inside the mutex
    | Arrive(state: string)                         // a callback calls consume
    | Job(index: nat)
    | Read(p: nat, ok: bool)                        // the record is looked up, or the read is rejected
    | Delete(p: nat, ok: bool, gone: bool)          // a rejected delete may or may not have removed the record
    | Finish(p: nat, valid: bool)                   // the record parses, is fresh and belongs to this client, or not
    | Leave(p: nat)

  /** All callbacks share one namespace. */
  const KEY: nat := 0

  function Init(v: J.Variant): System { System(J.Init(v), [], {}, {}, []) }

  predicate Inside(sys: System, p: nat) {
    p < |sys.callbacks| && p < |sys.mutex.callers| && sys.mutex.callers[p].phase.Critical?
  }

  /** What the code of one callback can do next, whether it is inside or not. */
  predicate Ready(sys: System, e: Event) {
    match e
    case Save(state) => state !in sys.saved
    case Discard(_) => true
    case Arrive(_) => true
    case Job(i) => J.Enabled(sys.mutex, J.RunJob(i)) && J.Scheduled(sys.mutex.variant, J.RunJob(i))
    case Read(p, _) => p < |sys.callbacks| && sys.callbacks[p].stage.Todo?
    case Delete(p, _, _) => p < |sys.callbacks| && sys.callbacks[p].stage.HasRead?
    case Finish(p, _) => p < |sys.callbacks| && sys.callbacks[p].stage.Deleted?
    case Leave(p) => Inside(sys, p) && (sys.callbacks[p].stage.Returned? || sys.callbacks[p].stage.Thrown?)
  }

  predicate Enabled(sys: System, e: Event) {
    Ready(sys, e) && (e.Read? || e.Delete? || e.Finish? ==> Inside(sys, e.p))
  }

  function At(sys: System, p: nat, stage: Stage): seq<Callback>
    requires p < |sys.callbacks|
  {
    sys.callbacks[p := sys.callbacks[p].(stage := stage)]
  }

  function Step(sys: System, e: Event): System
    requires Ready(sys, e)
  {
    match e
    case Save(state) => sys.(store := sys.store + {state}, saved := sys.saved + {state})
    case Discard(state) => sys.(store := sys.store - {state})
    case Arrive(state) => sys.(mutex := J.Step(sys.mutex, J.Start(KEY)),
      callbacks := sys.callbacks + [Callback(state, Todo)])
    case Job(i) => sys.(mutex := J.Step(sys.mutex, J.RunJob(i)))
    case Read(p, ok) =>
      // use-sign-in.ts throws on a missing record before deleting, browser-oidc.ts deletes first
      var found := sys.callbacks[p].state in sys.store;
      sys.(callbacks := At(sys, p, if !ok || (!found && sys.mutex.variant.Late?) then Thrown else HasRead(found)))
    case Delete(p, ok, gone) =>
      var found := sys.callbacks[p].stage.found;
      sys.(store := if ok || gone then sys.store - {sys.callbacks[p].state} else sys.store,
           callbacks := At(sys, p, if ok && found then Deleted else Thrown))
    case Finish(p, valid) =>
      if valid then sys.(callbacks := At(sys, p, Returned), consumed := sys.consumed + [sys.callbacks[p].state])
      else sys.(callbacks := At(sys, p, Thrown))
    case Leave(p) => sys.(mutex := J.Step(sys.mutex, J.Exit(p)))
  }

  predicate Runs(sys: System, es: seq<Event>, sys': System)
    decreases |es|
  {
    if es == [] then sys == sys' else Enabled(sys, es[0]) && Runs(Step(sys, es[0]), es[1..], sys')
  }

  // ---------------------------------------------------------------- the invariant

  /** A callback between its read and its end is inside, and owns the record it found. */
  predicate CallbackOk(sys: System, p: nat)
    requires p < |sys.callbacks|
  {
    var c := sys.callbacks[p];
    && (c.stage.HasRead? || c.stage.Deleted? ==> Inside(sys, p))
    && (p < |sys.mutex.callers| && sys.mutex.callers[p].phase.Waiting? ==> c.stage.Todo?)
    && (p < |sys.mutex.callers| && sys.mutex.callers[p].phase.Done? ==> c.stage.Returned? || c.stage.Thrown?)
    && (c.stage == HasRead(true) ==> c.state in sys.saved && c.state !in sys.consumed)
    && (c.stage.Deleted? ==> c.state in sys.saved && c.state !in sys.store && c.state !in sys.consumed)
  }

  ghost predicate Inv(sys: System) {
    && J.Inv(sys.mutex)
    && |sys.mutex.callers| == |sys.callbacks|
    && (forall p :: 0 <= p < |sys.callbacks| ==> sys.mutex.callers[p].key == KEY)
    && (forall p {:trigger CallbackOk(sys, p)} :: 0 <= p < |sys.callbacks| ==> CallbackOk(sys, p))
    && sys.store <= sys.saved
    && (forall s :: s in sys.consumed ==> s in sys.saved && s !in sys.store)
    && (forall i, j :: 0 <= i < j < |sys.consumed| ==> sys.consumed[i] != sys.consumed[j])
  }

  lemma OneInside(sys: System, p: nat, q: nat)
    requires Inv(sys) && Inside(sys, p) && Inside(sys, q)
    ensures p == q
  {
    assert J.QueueOk(sys.mutex.callers, p) && J.QueueOk(sys.mutex.callers, q);
  }

  lemma StepInv(sys: System, e: Event)
    requires Inv(sys) && Enabled(sys, e)
    ensures Inv(Step(sys, e)) && Step(sys, e).mutex.variant == sys.mutex.variant
  {
    hide J.QueueOk, J.ChainOk, J.ReactionsOk, J.TailsOk, J.JobsOk, J.BindFirst, J.Inv;
    var sys' := Step(sys, e);
    if e.Arrive? {
      M.StepInv(sys.mutex, J.Start(KEY));
    } else if e.Job? {
      M.StepInv(sys.mutex, J.RunJob(e.index));
      EntersFromWaiting(sys.mutex, e.index);
    } else if e.Leave? {
      M.StepInv(sys.mutex, J.Exit(e.p));
    }
    forall p | 0 <= p < |sys'.callbacks|
      ensures CallbackOk(sys', p)
    {
      if p < |sys.callbacks| {
        assert CallbackOk(sys, p);
        if e.Read? || e.Delete? || e.Finish? {
          assert CallbackOk(sys, e.p);
          if Inside(sys, p) { OneInside(sys, p, e.p); }
        }
      }
    }
    if e.Finish? { assert CallbackOk(sys, e.p); }
  }

  /** A job moves at most one caller, from waiting to inside. */
  lemma EntersFromWaiting(st: J.State, i: nat)
    requires J.Inv(st) && J.Enabled(st, J.RunJob(i)) && J.Scheduled(st.variant, J.RunJob(i))
    ensures var st' := J.Step(st, J.RunJob(i));
            && |st'.callers| == |st.callers|
            && forall p :: 0 <= p < |st.callers| ==>
                 && st'.callers[p].key == st.callers[p].key
                 && (st'.callers[p].phase == st.callers[p].phase
                   || (st.callers[p].phase.Waiting? && st'.callers[p].phase.Critical?))
  {
    J.HeadIsDue(st, i);
  }

  lemma {:induction false} RunInv(sys: System, es: seq<Event>, sys': System)
    requires Inv(sys) && Runs(sys, es, sys')
    ensures Inv(sys')
    decreases |es|
  {
    if es != [] {
      StepInv(sys, es[0]);
      RunInv(Step(sys, es[0]), es[1..], sys');
    }
  }

  /**
   * Over all interleavings of sign-ins and callbacks, each saved record is handed out at most once, and is then gone.
   */
  lemma ConsumedAtMostOnce(v: J.Variant, es: seq<Event>, sys: System)
    requires Runs(Init(v), es, sys)
    ensures forall i, j :: 0 <= i < j < |sys.consumed| ==> sys.consumed[i] != sys.consumed[j]
    ensures forall s :: s in sys.consumed ==> s in sys.saved && s !in sys.store
  {
    J.InitInv(v);
    RunInv(Init(v), es, sys);
  }

  /** Two callbacks are never between reading and returning at once. */
  lemma NoTwoReaders(v: J.Variant, es: seq<Event>, sys: System, p: nat, q: nat)
    requires Runs(Init(v), es, sys) && p < |sys.callbacks| && q < |sys.callbacks|
    requires sys.callbacks[p].stage.HasRead? || sys.callbacks[p].stage.Deleted?
    requires sys.callbacks[q].stage.HasRead? || sys.callbacks[q].stage.Deleted?
    ensures p == q
  {
    J.InitInv(v);
    RunInv(Init(v), es, sys);
    assert CallbackOk(sys, p) && CallbackOk(sys, q);
    OneInside(sys, p, q);
  }

  /**
   * What one consume comes to. A record is returned exactly if it was found, deleted and valid; whatever else happens
   * the callback throws and nothing is handed out. Only a delete takes the record away, also from an invalid one.
   */
  lemma ConsumeOutcome(sys: System, p: nat, gone: bool, valid: bool)
    requires Inv(sys) && Inside(sys, p) && sys.callbacks[p].stage.Todo?
    ensures var state := sys.callbacks[p].state;
            var rejected := Step(sys, Read(p, false));
            var read := Step(sys, Read(p, true));
            && rejected.callbacks[p].stage.Thrown? && rejected.store == sys.store && rejected.consumed == sys.consumed
            && read.store == sys.store && read.consumed == sys.consumed
            && (sys.mutex.variant.Late? && state !in sys.store ==> read.callbacks[p].stage.Thrown?)
            && (sys.mutex.variant.Early? || state in sys.store ==>
                  && Enabled(read, Delete(p, true, gone)) && Enabled(read, Delete(p, false, gone))
                  && var kept, deleted := Step(read, Delete(p, false, gone)), Step(read, Delete(p, true, gone));
                     && kept.callbacks[p].stage.Thrown? && kept.consumed == sys.consumed
                     && kept.store == (if gone then sys.store - {state} else sys.store)
                     && deleted.store == sys.store - {state}
                     && (state !in sys.store ==> deleted.callbacks[p].stage.Thrown? && deleted.consumed == sys.consumed)
                     && (state in sys.store ==>
                           && Enabled(deleted, Finish(p, valid))
                           && var done := Step(deleted, Finish(p, valid));
                              && done.callbacks[p].stage == (if valid then Returned else Thrown)
                              && done.consumed == sys.consumed + (if valid then [state] else [])
                              && done.store == sys.store - {state}))
  {
  }

  // ---------------------------------------------------------------- the mutex inside

  /** What an event is to the mutex. */
  function ToMutex(es: seq<Event>): seq<J.Event> {
    if es == [] then []
    else
      (match es[0]
       case Arrive(_) => [J.Start(KEY)]
       case Job(i) => [J.RunJob(i)]
       case Leave(p) => [J.Exit(p)]
       case _ => []) + ToMutex(es[1..])
  }

  /** Callbacks arrive, take turns and leave as in a run of the mutex, so all that holds of its runs holds here. */
  lemma {:induction false} MutexFollows(sys: System, es: seq<Event>, sys': System)
    requires Inv(sys) && Runs(sys, es, sys')
    ensures J.Runs(sys.mutex, ToMutex(es), sys'.mutex)
    decreases |es|
  {
    hide Inv, J.Step;
    if es != [] {
      var mid := Step(sys, es[0]);
      StepInv(sys, es[0]);
      MutexFollows(mid, es[1..], sys');
      var rest := ToMutex(es[1..]);
      assert ToMutex(es) == rest || (|ToMutex(es)| == |rest| + 1 && ToMutex(es)[1..] == rest);
    }
  }

  /** Nothing keeps sign-ins from saving and giving up, or callbacks from arriving, at any time. */
  lemma AnyTime(sys: System, state: string)
    ensures Enabled(sys, Arrive(state)) && Enabled(sys, Discard(state))
    ensures state !in sys.saved ==> Enabled(sys, Save(state))
  {
  }

  /** As long as a callback has not left, a job or a step of the callback inside is possible. */
  lemma NobodyHangs(v: J.Variant, es: seq<Event>, sys: System)
    requires Runs(Init(v), es, sys) && !M.AllDone(sys.mutex)
    ensures exists e: Event :: !e.Save? && !e.Discard? && !e.Arrive? && Enabled(sys, e)
  {
    J.InitInv(v);
    RunInv(Init(v), es, sys);
    M.SomebodyMoves(sys.mutex);
    if sys.mutex.jobs != [] {
      assert Enabled(sys, Job(0));
    } else {
      var p :| 0 <= p < |sys.mutex.callers| && sys.mutex.callers[p].phase.Critical?;
      match sys.callbacks[p].stage {
        case Todo => assert Enabled(sys, Read(p, true));
        case HasRead(_) => assert Enabled(sys, Delete(p, true, true));
        case Deleted => assert Enabled(sys, Finish(p, true));
        case Returned => assert Enabled(sys, Leave(p));
        case Thrown => assert Enabled(sys, Leave(p));
      }
    }
  }

  /** Nobody holds the record of this sign-in between reading and returning. */
  predicate Unread(sys: System, state: string) {
    forall p :: 0 <= p < |sys.callbacks| && sys.callbacks[p].state == state ==>
      sys.callbacks[p].stage != HasRead(true) && !sys.callbacks[p].stage.Deleted?
  }

  /** A saved record is there; one that the sign-in gave up before anybody read it is gone and never handed out. */
  lemma {:induction false} DiscardedIsGone(sys: System, state: string, es: seq<Event>, sys': System)
    requires Inv(sys) && state in sys.saved && state !in sys.store && Unread(sys, state) && Runs(sys, es, sys')
    ensures state !in sys'.store && (state in sys'.consumed <==> state in sys.consumed)
    decreases |es|
  {
    hide J.Inv, J.Step;
    if es != [] {
      StepInv(sys, es[0]);
      DiscardedIsGone(Step(sys, es[0]), state, es[1..], sys');
    }
  }

  lemma SaveAndDiscard(sys: System, state: string)
    requires Ready(sys, Save(state))
    ensures state in Step(sys, Save(state)).store && state in Step(sys, Save(state)).saved
    ensures Step(Step(sys, Save(state)), Discard(state)).store == sys.store - {state}
    ensures Step(Step(sys, Save(state)), Discard(state)).consumed == sys.consumed
  {
  }

  // ---------------------------------------------------------------- without the mutex

  /** Runs in which callbacks do not wait until they are inside. */
  predicate FreeRuns(sys: System, es: seq<Event>, sys': System)
    decreases |es|
  {
    if es == [] then sys == sys' else Ready(sys, es[0]) && FreeRuns(Step(sys, es[0]), es[1..], sys')
  }

  lemma {:induction false} FreeRunsAppend(sys: System, es: seq<Event>, mid: System, a: Event, b: Event)
    requires FreeRuns(sys, es, mid) && Ready(mid, a) && Ready(Step(mid, a), b)
    ensures FreeRuns(sys, es + [a, b], Step(Step(mid, a), b))
    decreases |es|
  {
    hide Step, Ready;
    if es == [] {
      assert [a, b][1..] == [b] && [b][1..] == [] && es + [a, b] == [a, b];
      assert FreeRuns(Step(mid, a), [b], Step(Step(mid, a), b));
    } else {
      FreeRunsAppend(Step(sys, es[0]), es[1..], mid, a, b);
      assert (es + [a, b])[1..] == es[1..] + [a, b];
    }
  }

  /** Without the mutex the property is lost: two callbacks of one sign-in both read its record and both return it. */
  lemma MutexIsNeeded(v: J.Variant, state: string) returns (es: seq<Event>, sys: System)
    ensures FreeRuns(Init(v), es, sys) && sys.consumed == [state, state]
  {
    hide J.Step;
    var saved := Step(Init(v), Save(state));
    var arrived := Step(Step(saved, Arrive(state)), Arrive(state));
    var read := Step(Step(arrived, Read(0, true)), Read(1, true));
    var deleted := Step(Step(read, Delete(0, true, true)), Delete(1, true, true));
    assert read.callbacks == [Callback(state, HasRead(true)), Callback(state, HasRead(true))];
    assert deleted.callbacks == [Callback(state, Deleted), Callback(state, Deleted)];
    assert FreeRuns(saved, [], saved) && [Save(state)][1..] == [];
    assert FreeRuns(Init(v), [Save(state)], saved);
    es := [Save(state)];
    FreeRunsAppend(Init(v), es, saved, Arrive(state), Arrive(state));
    es := es + [Arrive(state), Arrive(state)];
    FreeRunsAppend(Init(v), es, arrived, Read(0, true), Read(1, true));
    es := es + [Read(0, true), Read(1, true)];
    FreeRunsAppend(Init(v), es, read, Delete(0, true, true), Delete(1, true, true));
    es := es + [Delete(0, true, true), Delete(1, true, true)];
    FreeRunsAppend(Init(v), es, deleted, Finish(0, true), Finish(1, true));
    es := es + [Finish(0, true), Finish(1, true)];
    sys := Step(Step(deleted, Finish(0, true)), Finish(1, true));
  }
}
