/** The promise-tail mutex: what holds over every run of its machine, and the shared map as an object. */
module PromiseMutex {
  import opened Text
  import opened PromiseJobs

  lemma StepInv(st: State, e: Event)
    requires Inv(st) && Enabled(st, e) && Scheduled(st.variant, e)
    ensures Inv(Step(st, e)) && Step(st, e).variant == st.variant
  {
    match e
    case Start(key) => StartInv(st, key);
    case RunJob(i) => PerformInv(st, i);
    case Exit(p) => ExitInv(st, p);
  }

  lemma {:induction false} RunInv(st: State, es: seq<Event>, st': State)
    requires Inv(st) && Runs(st, es, st')
    ensures Inv(st') && st'.variant == st.variant
    decreases |es|
  {
    if es != [] {
      StepInv(st, es[0]);
      RunInv(Step(st, es[0]), es[1..], st');
    }
  }

  // ---------------------------------------------------------------- mutual exclusion, order, progress

  /**
   * Over every run, a caller that has entered is preceded only by callers that are done: one at a time, in calling
   * order.
   */
  lemma EntersInOrder(v: Variant, es: seq<Event>, st: State, p: nat, q: nat)
    requires Runs(Init(v), es, st) && p < q < |st.callers| && st.callers[p].key == st.callers[q].key
    ensures !st.callers[q].phase.Waiting? ==> st.callers[p].phase.Done?
    ensures !(st.callers[p].phase.Critical? && st.callers[q].phase.Critical?)
  {
    InitInv(v);
    RunInv(Init(v), es, st);
    assert QueueOk(st.callers, q);
  }

  /**
   * Over every run, whoever is in its critical section holds the resolver of its own gate, so leaving opens that gate.
   */
  lemma ReleaseIsOwnGate(v: Variant, es: seq<Event>, st: State, p: nat)
    requires Runs(Init(v), es, st) && p < |st.callers|
    ensures st.callers[p].phase.Critical? ==> st.callers[p].bound && ExitCaller(st, p).callers[p].gateOpen
    ensures st.callers[p].phase.Done? ==> st.callers[p].gateOpen
  {
    InitInv(v);
    RunInv(Init(v), es, st);
    assert ChainOk(v, st.callers, p);
  }

  predicate AllDone(st: State) {
    forall p :: 0 <= p < |st.callers| ==> st.callers[p].phase.Done?
  }

  /** A done caller whose tail is not settled still has the job queued that takes the tail further. */
  lemma UnsettledHasJob(st: State, q: nat)
    requires Inv(st) && q < |st.callers| && !st.callers[q].settled && st.callers[q].phase.Done?
    ensures st.jobs != []
  {
    var cs, v := st.callers, st.variant;
    assert ChainOk(v, cs, q);
    assert Due(v, cs, Settle(q)) || Due(v, cs, Adopt(q)) || Due(v, cs, Bind(q));
  }

  /** The first caller that is not done, or nobody. */
  lemma FirstUndone(st: State) returns (p: nat)
    ensures p <= |st.callers|
    ensures forall r :: 0 <= r < p ==> st.callers[r].phase.Done?
    ensures p < |st.callers| ==> !st.callers[p].phase.Done?
  {
    p := 0;
    while p < |st.callers| && st.callers[p].phase.Done?
      invariant p <= |st.callers|
      invariant forall r :: 0 <= r < p ==> st.callers[r].phase.Done?
    {
      p := p + 1;
    }
  }

  lemma SomebodyMoves(st: State)
    requires Inv(st) && !AllDone(st)
    ensures st.jobs != [] || exists p :: 0 <= p < |st.callers| && st.callers[p].phase.Critical?
    ensures st.jobs != [] ==> Enabled(st, RunJob(0))
  {
    var cs, v := st.callers, st.variant;
    var p := FirstUndone(st);
    if cs[p].phase.Waiting? {
      assert ChainOk(v, cs, p) && QueueOk(cs, p);
      if Ready(cs, p) {
        assert Due(v, cs, Pass(p)) || Due(v, cs, Resume(p));
      } else {
        UnsettledHasJob(st, cs[p].prev.value);
      }
    }
    if st.jobs != [] { assert st.jobs[0] in st.jobs; }
  }

  /** Over every run, as long as somebody is not done a job is queued or somebody is in a critical section. */
  lemma NobodyIsStranded(v: Variant, es: seq<Event>, st: State)
    requires Runs(Init(v), es, st) && !AllDone(st)
    ensures st.jobs != [] || exists p :: 0 <= p < |st.callers| && st.callers[p].phase.Critical?
    ensures st.jobs != [] ==> Enabled(st, RunJob(0)) && Scheduled(v, RunJob(0))
  {
    InitInv(v);
    RunInv(Init(v), es, st);
    SomebodyMoves(st);
  }

  /** Over every run, the map has an entry exactly for the keys that still have a caller waiting or inside. */
  lemma TailsAreLive(v: Variant, es: seq<Event>, st: State, key: nat)
    requires Runs(Init(v), es, st)
    ensures key in st.tails <==>
              exists p :: 0 <= p < |st.callers| && st.callers[p].key == key && !st.callers[p].phase.Done?
  {
    InitInv(v);
    RunInv(Init(v), es, st);
    assert TailsOk(st.callers, st.tails, key);
  }

  /** The steps a caller still has to take. */
  function Work(v: Variant, c: Caller): nat {
    (if c.bindRan then 0 else 1) + (if v.Early? && !c.passRan then 1 else 0)
    + (match c.phase case Waiting => 2 case Critical => 1 case Done => 0)
    + (if c.adopted then 0 else 1) + (if c.settled then 0 else 1)
  }

  function TotalWork(v: Variant, cs: seq<Caller>): nat {
    if cs == [] then 0 else TotalWork(v, cs[..|cs| - 1]) + Work(v, cs[|cs| - 1])
  }

  lemma {:induction false} TotalWorkUpdate(v: Variant, cs: seq<Caller>, p: nat, c: Caller)
    requires p < |cs|
    ensures TotalWork(v, cs[p := c]) == TotalWork(v, cs) - Work(v, cs[p]) + Work(v, c)
  {
    var n := |cs| - 1;
    if p == n {
      assert cs[p := c][..n] == cs[..n];
    } else {
      assert cs[p := c][..n] == cs[..n][p := c];
      TotalWorkUpdate(v, cs[..n], p, c);
    }
  }

  /** Each step other than a new call does exactly one unit of the remaining work. */
  lemma StepWorks(st: State, e: Event)
    requires Inv(st) && Enabled(st, e) && Scheduled(st.variant, e) && !e.Start?
    ensures TotalWork(st.variant, Step(st, e).callers) == TotalWork(st.variant, st.callers) - 1
  {
    var p := if e.RunJob? then st.jobs[e.index].p else e.p;
    assert ChainOk(st.variant, st.callers, p);
    if e.RunJob? { HeadIsDue(st, e.index); }
    TotalWorkUpdate(st.variant, st.callers, p, Step(st, e).callers[p]);
  }

  lemma {:induction false} QuietRunWorks(st: State, es: seq<Event>, st': State)
    requires Inv(st) && Runs(st, es, st') && forall e :: e in es ==> !e.Start?
    ensures |es| == TotalWork(st.variant, st.callers) - TotalWork(st.variant, st'.callers)
    decreases |es|
  {
    if es != [] {
      StepInv(st, es[0]);
      StepWorks(st, es[0]);
      QuietRunWorks(Step(st, es[0]), es[1..], st');
    }
  }

  /** No job is queued and nobody is in a critical section. */
  predicate Idle(st: State) {
    st.jobs == [] && forall p :: 0 <= p < |st.callers| ==> !st.callers[p].phase.Critical?
  }

  /**
   * Progress: once no new caller arrives, every continuation has at most the remaining work as its length,
   * and it can come to rest only when everybody is done and the map is empty.
   */
  lemma EveryRunDrains(v: Variant, before: seq<Event>, st: State, after: seq<Event>, st': State)
    requires Runs(Init(v), before, st) && Runs(st, after, st') && forall e :: e in after ==> !e.Start?
    ensures |after| <= TotalWork(v, st.callers)
    ensures Idle(st') ==> AllDone(st') && st'.tails == map[]
  {
    InitInv(v);
    RunInv(Init(v), before, st);
    QuietRunWorks(st, after, st');
    RunConcat(Init(v), before, st, after, st');
    if Idle(st') {
      if !AllDone(st') { NobodyIsStranded(v, before + after, st'); }
      forall key: nat
        ensures key !in st'.tails
      {
        TailsAreLive(v, before + after, st', key);
      }
    }
  }

  lemma {:induction false} RunConcat(a: State, xs: seq<Event>, b: State, ys: seq<Event>, c: State)
    requires Runs(a, xs, b) && Runs(b, ys, c)
    ensures Runs(a, xs + ys, c)
    decreases |xs|
  {
    if xs == [] {
      assert xs + ys == ys;
    } else {
      RunConcat(Step(a, xs[0]), xs[1..], b, ys, c);
      assert (xs + ys)[1..] == xs[1..] + ys;
    }
  }

  /** A run in which any queued job may come next. */
  predicate RunsInAnyOrder(st: State, es: seq<Event>, st': State)
    decreases |es|
  {
    if es == [] then st == st' else Enabled(st, es[0]) && RunsInAnyOrder(Step(st, es[0]), es[1..], st')
  }

  /** Somebody waits, and nothing but a new call can happen. */
  ghost predicate Stranded(st: State) {
    (exists p :: 0 <= p < |st.callers| && st.callers[p].phase.Waiting?)
    && forall e: Event {:trigger Enabled(st, e)} :: !e.Start? ==> !Enabled(st, e)
  }

  /** Two callers of the late form: the first resumes ahead of its binding callback and leaves before it. */
  const LOST: seq<Event> := [Start(0), Start(0), RunJob(1), Exit(0), RunJob(0), RunJob(0)]

  /** The states on the way. */
  function LostAt(k: nat): State
    requires k <= |LOST|
  {
    var a := Caller(0, None, k >= 5, k >= 5, false, if k < 3 then Waiting else if k == 3 then Critical else Done,
                    false, k >= 6, false, if k < 2 then [] else [Bind(1), Resume(1)]);
    var b := Caller(0, Some(0), false, false, false, Waiting, false, false, false, []);
    var jobs := if k == 0 || k == 6 then [] else if k < 3 then [Bind(0), Resume(0)] else if k < 5 then [Bind(0)]
      else [Adopt(0)];
    var callers := if k == 0 then [] else if k == 1 then [a] else [a, b];
    State(Late, callers, if k == 0 then map[] else map[0 := |callers| - 1], jobs)
  }

  lemma LostStep(k: nat)
    requires k < |LOST|
    ensures Enabled(LostAt(k), LOST[k]) && Step(LostAt(k), LOST[k]) == LostAt(k + 1)
  {
    var st := LostAt(k);
    if k == 0 {
      assert [] + st.jobs == st.jobs;
    } else if k == 1 {
      assert st.callers[0].reactions + [Bind(1), Resume(1)] == [Bind(1), Resume(1)];
      assert Step(st, LOST[k]).callers == LostAt(2).callers;
    } else if k == 2 {
      assert Without(st.jobs, 1) == [Bind(0)];
    } else if k == 3 {
      assert st.jobs + [] == st.jobs;
    } else {
      assert Without(st.jobs, 0) == [];
    }
  }

  lemma LostIsStranded()
    ensures Stranded(LostAt(|LOST|))
  {
    var st := LostAt(|LOST|);
    assert st.jobs == [] && st.callers[0].phase.Done? && st.callers[1].phase.Waiting? && |st.callers| == 2;
    hide LostAt;
    forall e: Event | !e.Start?
      ensures !Enabled(st, e)
    {
      assert e.Exit? && e.p < 2 ==> !st.callers[e.p].phase.Critical?;
    }
  }

  lemma {:induction false} LostRun(k: nat)
    requires k <= |LOST|
    ensures RunsInAnyOrder(LostAt(k), LOST[k..], LostAt(|LOST|))
    decreases |LOST| - k
  {
    hide LostAt, Step;
    if k < |LOST| {
      LostStep(k);
      LostRun(k + 1);
      assert LOST[k..][1..] == LOST[k + 1..];
    }
  }

  /**
   * The late form is correct only because jobs run first in, first out: in another order a caller leaves without its
   * resolver and the next one waits forever.
   */
  lemma LateFormNeedsJobOrder()
    ensures RunsInAnyOrder(Init(Late), LOST, LostAt(|LOST|)) && Stranded(LostAt(|LOST|))
  {
    LostRun(0);
    LostIsStranded();
    assert LOST[0..] == LOST && LostAt(0) == Init(Late);
  }

  // ---------------------------------------------------------------- the shared map

  /** The module-level tail map with the promises its callers hold. Each method is what runs without interruption. */
  class MutationTails {
    const variant: Variant
    var callers: seq<Caller>
    var tails: map<nat, nat>
    var jobs: seq<Job>

    function View(): State
      reads this
    {
      State(variant, callers, tails, jobs)
    }

    constructor (v: Variant)
      ensures View() == Init(v) && Inv(View())
    {
      variant, callers, tails, jobs := v, [], map[], [];
      new;
      InitInv(v);
    }

    /** Up to the await: look up the previous tail, register on it, and become the tail. */
    method Call(key: nat) returns (p: nat)
      requires Inv(View())
      modifies this
      ensures Inv(View()) && View() == Step(old(View()), Start(key)) && p == old(|callers|)
    {
      StartInv(View(), key);
      hide Inv;
      p := |callers|;
      var previous := if key in tails then Some(tails[key]) else None;
      var reactions := [Bind(p), First(variant, p)];
      if previous.Some? && previous.value < p && !callers[previous.value].settled {
        var q := previous.value;
        callers := callers[q := callers[q].(reactions := callers[q].reactions + reactions)];
      } else {
        jobs := jobs + reactions;
      }
      callers := callers + [Caller(key, previous, false, variant.Early?, false, Waiting, false, false, false, [])];
      tails := tails[key := p];
    }

    method RunJob(i: nat)
      requires Inv(View()) && Enabled(View(), Event.RunJob(i)) && Scheduled(variant, Event.RunJob(i))
      modifies this`callers, this`jobs
      ensures Inv(View()) && View() == Step(old(View()), Event.RunJob(i))
    {
      PerformInv(View(), i);
      hide Inv;
      var job := jobs[i];
      var p := job.p;
      jobs := jobs[..i] + jobs[i + 1..];
      match job {
        case Bind(_) =>
          callers := callers[p := callers[p].(bindRan := true, bound := true)];
          jobs := jobs + [Adopt(p)];
        case Pass(_) =>
          callers := callers[p := callers[p].(passRan := true)];
          jobs := jobs + [Resume(p)];
        case Resume(_) =>
          callers := callers[p := callers[p].(phase := Critical)];
        case Adopt(_) =>
          callers := callers[p := callers[p].(adopted := true)];
          jobs := jobs + if callers[p].gateOpen then [Settle(p)] else [];
        case Settle(_) =>
          jobs := jobs + callers[p].reactions;
          callers := callers[p := callers[p].(settled := true, reactions := [])];
      }
    }

    /** The finally block, whether the operation returned or threw. */
    method Leave(p: nat)
      requires Inv(View()) && Enabled(View(), Exit(p))
      modifies this
      ensures Inv(View()) && View() == Step(old(View()), Exit(p))
    {
      ExitInv(View(), p);
      hide Inv;
      var c := callers[p];
      callers := callers[p := c.(phase := Done, gateOpen := c.bound)];
      jobs := jobs + if c.bound && c.adopted then [Settle(p)] else [];
      if c.key in tails && tails[c.key] == p { tails := tails - {c.key}; }
    }
  }
}
