/**
 * The machine of the promise-tail mutex: a map from a key to the tail promise of the last caller.
 *
 * Promise jobs are queued explicitly, as in section 9.5 of ECMA-262:
 * - a caller registers two jobs on the previous tail,
 * - a settled tail queues its jobs,
 * - and a job may queue the next one.
 *
 * The invariant says how callers, promises, jobs and the map fit together, and each step is shown to keep it.
 */
module PromiseJobs {
  import opened Text

  /**
   * `Early` is the form of session-manager.ts and browser-oidc.ts, where the gate exists before the caller waits;
   * `Late` is the form of use-sign-in.ts, where `release` is bound by a callback on the previous tail.
   */
  datatype Variant = Early | Late

  /** A promise job of caller p. */
  datatype Job =
    | Bind(p: nat)    // the callback on the previous tail: it returns the gate
    | Pass(p: nat)    // Early only: `previous.catch` hands the fulfilment on
    | Resume(p: nat)  // the caller continues after its await
    | Adopt(p: nat)   // the tail subscribes to the gate that the callback returned
    | Settle(p: nat)  // the gate's fulfilment reaches the tail

  datatype Phase = Waiting | Critical | Done

  datatype Caller = Caller(
    key: nat,
    prev: Option<nat>,    // whose tail is awaited; None for an already resolved promise
    bindRan: bool,
    bound: bool,          // `release` is the resolver of this caller's gate
    passRan: bool,
    phase: Phase,
    gateOpen: bool,
    adopted: bool,
    settled: bool,        // the tail promise is fulfilled
    reactions: seq<Job>)  // jobs registered on the tail promise

  /** Callers are numbered in the order in which they call. */
  datatype State = State(variant: Variant, callers: seq<Caller>, tails: map<nat, nat>, jobs: seq<Job>)

  datatype Event = Start(key: nat) | RunJob(index: nat) | Exit(p: nat)

  function Init(v: Variant): State { State(v, [], map[], []) }

  function First(v: Variant, p: nat): Job { if v.Early? then Pass(p) else Resume(p) }

  function StartCaller(st: State, key: nat): State {
    var p := |st.callers|;
    var prev := if key in st.tails then Some(st.tails[key]) else None;
    var me := Caller(key, prev, false, st.variant.Early?, false, Waiting, false, false, false, []);
    var reactions := [Bind(p), First(st.variant, p)];
    var tails := st.tails[key := p];
    if prev.Some? && prev.value < p && !st.callers[prev.value].settled then
      var q := prev.value;
      State(st.variant, st.callers[q := st.callers[q].(reactions := st.callers[q].reactions + reactions)] + [me],
        tails, st.jobs)
    else
      State(st.variant, st.callers + [me], tails, st.jobs + reactions)
  }

  function Perform(st: State, j: Job): State
    requires j.p < |st.callers|
  {
    var c := st.callers[j.p];
    match j
    case Bind(p) => st.(callers := st.callers[p := c.(bindRan := true, bound := true)], jobs := st.jobs + [Adopt(p)])
    case Pass(p) => st.(callers := st.callers[p := c.(passRan := true)], jobs := st.jobs + [Resume(p)])
    case Resume(p) => st.(callers := st.callers[p := c.(phase := Critical)])
    case Adopt(p) =>
      st.(callers := st.callers[p := c.(adopted := true)],
          jobs := st.jobs + (if c.gateOpen then [Settle(p)] else []))
    case Settle(p) => st.(callers := st.callers[p := c.(settled := true, reactions := [])],
      jobs := st.jobs + c.reactions)
  }

  function Without(jobs: seq<Job>, i: nat): seq<Job>
    requires i < |jobs|
  {
    jobs[..i] + jobs[i + 1..]
  }

  /** The finally block: release, then drop the map entry if it is still this caller's own. */
  function ExitCaller(st: State, p: nat): State
    requires p < |st.callers|
  {
    var c := st.callers[p];
    State(st.variant,
          st.callers[p := c.(phase := Done, gateOpen := c.bound)],
          if c.key in st.tails && st.tails[c.key] == p then st.tails - {c.key} else st.tails,
          st.jobs + (if c.bound && c.adopted then [Settle(p)] else []))
  }

  predicate Enabled(st: State, e: Event) {
    match e
    case Start(_) => true
    case RunJob(i) => i < |st.jobs| && st.jobs[i].p < |st.callers|
    case Exit(p) => p < |st.callers| && st.callers[p].phase.Critical?
  }

  function Step(st: State, e: Event): State
    requires Enabled(st, e)
  {
    match e
    case Start(key) => StartCaller(st, key)
    case RunJob(i) => Perform(st.(jobs := Without(st.jobs, i)), st.jobs[i])
    case Exit(p) => ExitCaller(st, p)
  }

  /** The late form relies on first-in-first-out jobs; the early form is proved for every order. */
  predicate Scheduled(v: Variant, e: Event) {
    v.Late? && e.RunJob? ==> e.index == 0
  }

  /** A run of enabled events. */
  predicate Runs(st: State, es: seq<Event>, st': State)
    decreases |es|
  {
    if es == [] then st == st'
    else Enabled(st, es[0]) && Scheduled(st.variant, es[0]) && Runs(Step(st, es[0]), es[1..], st')
  }

  // ---------------------------------------------------------------- the invariant

  predicate Ready(cs: seq<Caller>, p: nat)
    requires p < |cs|
  {
    cs[p].prev.Some? && cs[p].prev.value < |cs| ==> cs[cs[p].prev.value].settled
  }

  /** Everyone with the same key who called before p is done. */
  predicate AllBefore(cs: seq<Caller>, p: nat)
    requires p < |cs|
  {
    forall r {:trigger cs[r].phase} :: 0 <= r < p && cs[r].key == cs[p].key ==> cs[r].phase.Done?
  }

  /**
   * The queue discipline: a caller awaits the previous caller of its key, and enters only after all of them are done.
   */
  predicate QueueOk(cs: seq<Caller>, p: nat)
    requires p < |cs|
  {
    var c := cs[p];
    && (c.prev.Some? ==> c.prev.value < p && cs[c.prev.value].key == c.key
                         && forall r :: c.prev.value < r < p ==> cs[r].key != c.key)
    && (c.prev.None? ==> AllBefore(cs, p))
    && (!c.phase.Waiting? ==> AllBefore(cs, p))
  }

  /** How the promises of one caller depend on each other. */
  predicate ChainOk(v: Variant, cs: seq<Caller>, p: nat)
    requires p < |cs|
  {
    var c := cs[p];
    && (c.gateOpen <==> c.phase.Done?)
    && (!c.phase.Waiting? ==> c.bound)
    && (c.bound <==> v.Early? || c.bindRan)
    && (c.settled ==> c.gateOpen && c.adopted && c.reactions == [])
    && (c.adopted ==> c.bindRan)
    && (c.bindRan ==> Ready(cs, p))
    && (v.Late? ==> !c.passRan)
    && (c.passRan ==> Ready(cs, p))
    && (!c.phase.Waiting? ==> Ready(cs, p) && (v.Early? ==> c.passRan))
  }

  /** Which job should be queued right now. */
  predicate Due(v: Variant, cs: seq<Caller>, j: Job)
    requires j.p < |cs|
  {
    var c := cs[j.p];
    match j
    case Bind(p) => Ready(cs, p) && !c.bindRan
    case Pass(p) => v.Early? && Ready(cs, p) && !c.passRan
    case Resume(p) => c.phase.Waiting? && (if v.Early? then c.passRan else Ready(cs, p))
    case Adopt(p) => c.bindRan && !c.adopted
    case Settle(p) => c.adopted && c.gateOpen && !c.settled
  }

  predicate NoDuplicates(jobs: seq<Job>) {
    forall i, j :: 0 <= i < j < |jobs| ==> jobs[i] != jobs[j]
  }

  /** Each due job is queued exactly once, and nothing else is. */
  ghost predicate JobsOk(v: Variant, cs: seq<Caller>, jobs: seq<Job>) {
    && NoDuplicates(jobs)
    && (forall j {:trigger j in jobs} :: j in jobs ==> j.p < |cs| && Due(v, cs, j))
    && (forall j: Job {:trigger Due(v, cs, j)} :: j.p < |cs| && Due(v, cs, j) ==> j in jobs)
  }

  /** A tail that is not settled holds exactly the two reactions of its successor. */
  predicate ReactionsOk(v: Variant, cs: seq<Caller>, q: nat)
    requires q < |cs|
  {
    && (cs[q].reactions != [] ==>
          && |cs[q].reactions| == 2 && cs[q].reactions[0].Bind?
          && var r := cs[q].reactions[0].p;
             r < |cs| && cs[r].prev == Some(q) && cs[q].reactions == [Bind(r), First(v, r)])
    && (forall r {:trigger cs[r].prev} :: 0 <= r < |cs| && cs[r].prev == Some(q) && !cs[q].settled ==>
      cs[q].reactions == [Bind(r), First(v, r)])
  }

  predicate TailsOk(cs: seq<Caller>, tails: map<nat, nat>, k: nat) {
    if k in tails then
      && tails[k] < |cs| && cs[tails[k]].key == k && !cs[tails[k]].phase.Done?
      && forall r :: tails[k] < r < |cs| ==> cs[r].key != k
    else forall r {:trigger cs[r].phase} :: 0 <= r < |cs| && cs[r].key == k ==> cs[r].phase.Done?
  }

  /** In the late form the binding callback is queued ahead of the caller it belongs to. */
  predicate BindFirst(jobs: seq<Job>) {
    forall i, j :: 0 <= i < |jobs| && 0 <= j < |jobs| && jobs[i].Resume? && jobs[j] == Bind(jobs[i].p) ==> j < i
  }

  ghost predicate Inv(st: State) {
    && (forall p {:trigger QueueOk(st.callers, p)} :: 0 <= p < |st.callers| ==> QueueOk(st.callers, p))
    && (forall p {:trigger ChainOk(st.variant, st.callers, p)} :: 0 <= p < |st.callers| ==>
      ChainOk(st.variant, st.callers, p))
    && (forall p {:trigger ReactionsOk(st.variant, st.callers, p)} :: 0 <= p < |st.callers| ==>
      ReactionsOk(st.variant, st.callers, p))
    && (forall k {:trigger TailsOk(st.callers, st.tails, k)} :: 0 <= k ==> TailsOk(st.callers, st.tails, k))
    && JobsOk(st.variant, st.callers, st.jobs)
    && (st.variant.Late? ==> BindFirst(st.jobs))
  }

  // ---------------------------------------------------------------- job queue lemmas

  lemma WithoutJob(jobs: seq<Job>, i: nat)
    requires i < |jobs| && NoDuplicates(jobs)
    ensures NoDuplicates(Without(jobs, i))
    ensures forall j :: j in Without(jobs, i) <==> j in jobs && j != jobs[i]
    ensures i == 0 && BindFirst(jobs) ==> BindFirst(Without(jobs, i))
  {
    var rest := Without(jobs, i);
    forall k | 0 <= k < |rest|
      ensures rest[k] == if k < i then jobs[k] else jobs[k + 1]
    {
    }
    forall j | j in jobs && j != jobs[i]
      ensures j in rest
    {
      var k :| 0 <= k < |jobs| && jobs[k] == j;
      assert rest[if k < i then k else k - 1] == j;
    }
  }

  lemma WithJobs(jobs: seq<Job>, more: seq<Job>)
    requires NoDuplicates(jobs) && NoDuplicates(more) && forall j :: j in more ==> j !in jobs
    ensures NoDuplicates(jobs + more)
    ensures forall j :: j in jobs + more <==> j in jobs || j in more
  {
    forall x, y | 0 <= x < |jobs| && 0 <= y < |more|
      ensures jobs[x] != more[y]
    {
      assert more[y] in more;
    }
  }

  /** Appending keeps the order when no new Bind comes behind its Resume. */
  lemma WithJobsBindFirst(jobs: seq<Job>, more: seq<Job>)
    requires BindFirst(jobs) && BindFirst(more)
    requires forall j :: j in more && j.Bind? ==> Resume(j.p) !in jobs
    ensures BindFirst(jobs + more)
  {
    forall x, y | 0 <= x < |jobs| && 0 <= y < |more| && more[y].Bind?
      ensures jobs[x] != Resume(more[y].p)
    {
      assert more[y] in more;
    }
    var all := jobs + more;
    forall i, j | 0 <= i < |all| && 0 <= j < |all| && all[i].Resume? && all[j] == Bind(all[i].p)
      ensures j < i
    {
      if j >= |jobs| && i >= |jobs| {
        assert more[i - |jobs|].Resume? && more[j - |jobs|] == Bind(more[i - |jobs|].p);
      }
    }
  }

  // ---------------------------------------------------------------- every step keeps the invariant

  lemma InitInv(v: Variant)
    ensures Inv(Init(v))
  {
  }

  /** The last caller of a key has no successor yet. */
  lemma LastHasNoReactions(st: State, q: nat)
    requires Inv(st) && q < |st.callers|
    requires forall r :: q < r < |st.callers| ==> st.callers[r].key != st.callers[q].key
    ensures st.callers[q].reactions == []
    ensures forall r :: 0 <= r < |st.callers| ==> st.callers[r].prev != Some(q)
  {
    var cs := st.callers;
    forall r | 0 <= r < |cs|
      ensures cs[r].prev != Some(q)
    {
      assert QueueOk(cs, r);
    }
    assert ReactionsOk(st.variant, cs, q);
  }

  lemma StartCallers(st: State, key: nat, x: nat)
    requires Inv(st) && x <= |st.callers|
    ensures QueueOk(StartCaller(st, key).callers, x)
    ensures ChainOk(st.variant, StartCaller(st, key).callers, x)
  {
    var cs, p, v := st.callers, |st.callers|, st.variant;
    var cs' := StartCaller(st, key).callers;
    assert TailsOk(cs, st.tails, key);
    if key in st.tails { LastHasNoReactions(st, st.tails[key]); }
    if x < p { assert QueueOk(cs, x) && ChainOk(v, cs, x); }
  }

  /** Nobody awaits the tail of a caller that is only just calling. */
  lemma NewHasNoReactions(st: State, key: nat)
    requires Inv(st)
    ensures ReactionsOk(st.variant, StartCaller(st, key).callers, |st.callers|)
  {
    hide ChainOk, JobsOk, BindFirst;
    var cs, p := st.callers, |st.callers|;
    assert TailsOk(cs, st.tails, key);
    forall r | 0 <= r < p
      ensures cs[r].prev != Some(p)
    {
      assert QueueOk(cs, r);
    }
  }

  lemma StartReactions(st: State, key: nat, x: nat)
    requires Inv(st) && x <= |st.callers|
    ensures ReactionsOk(st.variant, StartCaller(st, key).callers, x)
  {
    hide ChainOk, JobsOk, BindFirst, QueueOk;
    var cs, p, v := st.callers, |st.callers|, st.variant;
    assert TailsOk(cs, st.tails, key);
    if key in st.tails { LastHasNoReactions(st, st.tails[key]); }
    if x < p { assert ReactionsOk(v, cs, x); } else { NewHasNoReactions(st, key); }
  }

  lemma StartTails(st: State, key: nat, k: nat)
    requires Inv(st)
    ensures TailsOk(StartCaller(st, key).callers, StartCaller(st, key).tails, k)
  {
    assert TailsOk(st.callers, st.tails, k);
    assert TailsOk(st.callers, st.tails, key);
    var cs, cs' := st.callers, StartCaller(st, key).callers;
    assert forall r :: 0 <= r < |cs| ==> cs'[r].key == cs[r].key && cs'[r].phase == cs[r].phase;
  }

  lemma StartJobs(st: State, key: nat)
    requires Inv(st)
    ensures JobsOk(st.variant, StartCaller(st, key).callers, StartCaller(st, key).jobs)
  {
    hide BindFirst, ReactionsOk;
    var cs, p, v := st.callers, |st.callers|, st.variant;
    var cs' := StartCaller(st, key).callers;
    assert TailsOk(cs, st.tails, key);
    WithJobs(st.jobs, [Bind(p), First(v, p)]);
    forall j: Job | j.p < p
      ensures Due(v, cs', j) <==> Due(v, cs, j)
    {
      assert QueueOk(cs, j.p);
    }
  }

  lemma StartBindFirst(st: State, key: nat)
    requires Inv(st) && st.variant.Late?
    ensures BindFirst(StartCaller(st, key).jobs)
  {
    hide QueueOk, ChainOk, ReactionsOk, TailsOk;
    var p := |st.callers|;
    WithJobsBindFirst(st.jobs, [Bind(p), First(st.variant, p)]);
  }

  lemma StartInv(st: State, key: nat)
    requires Inv(st)
    ensures Inv(StartCaller(st, key))
  {
    hide QueueOk, ChainOk, ReactionsOk, TailsOk, JobsOk, BindFirst;
    forall x: nat | x <= |st.callers|
      ensures QueueOk(StartCaller(st, key).callers, x) && ChainOk(st.variant, StartCaller(st, key).callers, x)
      ensures ReactionsOk(st.variant, StartCaller(st, key).callers, x)
    {
      StartCallers(st, key, x);
      StartReactions(st, key, x);
    }
    forall k: nat
      ensures TailsOk(StartCaller(st, key).callers, StartCaller(st, key).tails, k)
    {
      StartTails(st, key, k);
    }
    StartJobs(st, key);
    if st.variant.Late? { StartBindFirst(st, key); }
  }

  /** Bookkeeping for a step that runs one job and queues some others. */
  lemma JobsStep(v: Variant, cs: seq<Caller>, cs': seq<Caller>, jobs: seq<Job>, i: nat, more: seq<Job>)
    requires JobsOk(v, cs, jobs) && |cs'| == |cs| && i < |jobs| && NoDuplicates(more)
    requires forall x: Job {:trigger Due(v, cs', x)} :: x.p < |cs| ==>
               (Due(v, cs', x) <==> (Due(v, cs, x) && x != jobs[i]) || x in more)
    requires forall x :: x in more ==> x.p < |cs| && !Due(v, cs, x)
    ensures JobsOk(v, cs', Without(jobs, i) + more)
  {
    hide Due;
    WithoutJob(jobs, i);
    WithJobs(Without(jobs, i), more);
    var jobs' := Without(jobs, i) + more;
    forall x: Job | x.p < |cs| && Due(v, cs', x)
      ensures x in jobs'
    {
      assert Due(v, cs, x) || x in more;
    }
  }

  /** The same for a step that only queues. */
  lemma JobsAdded(v: Variant, cs: seq<Caller>, cs': seq<Caller>, jobs: seq<Job>, more: seq<Job>)
    requires JobsOk(v, cs, jobs) && |cs'| == |cs| && NoDuplicates(more)
    requires forall x: Job {:trigger Due(v, cs', x)} :: x.p < |cs| ==> (Due(v, cs', x) <==> Due(v, cs, x) || x in more)
    requires forall x :: x in more ==> x.p < |cs| && !Due(v, cs, x)
    ensures JobsOk(v, cs', jobs + more)
  {
    hide Due;
    WithJobs(jobs, more);
    forall x: Job | x.p < |cs| && Due(v, cs', x)
      ensures x in jobs + more
    {
      assert Due(v, cs, x) || x in more;
    }
  }

  /** What the head of the queue knows: the job is due, and in the late form a resumed caller is bound. */
  lemma HeadIsDue(st: State, i: nat)
    requires Inv(st) && Enabled(st, RunJob(i)) && Scheduled(st.variant, RunJob(i))
    ensures Due(st.variant, st.callers, st.jobs[i])
    ensures st.jobs[i].Resume? ==> st.callers[st.jobs[i].p].bound && AllBefore(st.callers, st.jobs[i].p)
  {
    var cs, j := st.callers, st.jobs[i];
    assert j in st.jobs;
    assert ChainOk(st.variant, cs, j.p) && QueueOk(cs, j.p);
    if j.Resume? {
      if st.variant.Late? {
        forall k | 0 <= k < |st.jobs|
          ensures st.jobs[k] != Bind(j.p)
        {
        }
        assert !Due(st.variant, cs, Bind(j.p));
      }
      if cs[j.p].prev.Some? {
        var q := cs[j.p].prev.value;
        assert ChainOk(st.variant, cs, q) && QueueOk(cs, q);
      }
    }
  }

  lemma PerformQueue(st: State, i: nat, x: nat)
    requires Inv(st) && Enabled(st, RunJob(i)) && Scheduled(st.variant, RunJob(i)) && x < |st.callers|
    ensures QueueOk(Step(st, RunJob(i)).callers, x)
  {
    hide ChainOk, TailsOk;
    HeadIsDue(st, i);
    assert QueueOk(st.callers, x);
  }

  lemma PerformChain(st: State, i: nat, x: nat)
    requires Inv(st) && Enabled(st, RunJob(i)) && Scheduled(st.variant, RunJob(i)) && x < |st.callers|
    ensures ChainOk(st.variant, Step(st, RunJob(i)).callers, x)
  {
    HeadIsDue(st, i);
    assert QueueOk(st.callers, x) && ChainOk(st.variant, st.callers, x);
    assert ChainOk(st.variant, st.callers, st.jobs[i].p);
    hide QueueOk, TailsOk, AllBefore;
  }

  lemma PerformReactions(st: State, i: nat, x: nat)
    requires Inv(st) && Enabled(st, RunJob(i)) && Scheduled(st.variant, RunJob(i)) && x < |st.callers|
    ensures ReactionsOk(st.variant, Step(st, RunJob(i)).callers, x)
  {
    assert ReactionsOk(st.variant, st.callers, x);
  }

  lemma PerformTails(st: State, i: nat, k: nat)
    requires Inv(st) && Enabled(st, RunJob(i)) && Scheduled(st.variant, RunJob(i))
    ensures TailsOk(Step(st, RunJob(i)).callers, Step(st, RunJob(i)).tails, k)
  {
    HeadIsDue(st, i);
    assert TailsOk(st.callers, st.tails, k);
    var cs, cs' := st.callers, Step(st, RunJob(i)).callers;
    assert forall r :: 0 <= r < |cs| ==> cs'[r].key == cs[r].key && (cs'[r].phase.Done? <==> cs[r].phase.Done?);
  }

  /** When a tail settles, exactly its successor's two jobs become due. */
  lemma SettleDue(st: State, p: nat)
    requires Inv(st) && p < |st.callers| && Due(st.variant, st.callers, Settle(p))
    ensures var cs, cs' := st.callers, st.callers[p := st.callers[p].(settled := true, reactions := [])];
            var more := cs[p].reactions;
            && NoDuplicates(more)
            && (forall x: Job {:trigger Due(st.variant, cs', x)} :: x.p < |cs| ==>
                 (Due(st.variant, cs', x) <==> (Due(st.variant, cs, x) && x != Settle(p)) || x in more))
            && (forall x :: x in more ==> x.p < |cs| && !Due(st.variant, cs, x))
            && (st.variant.Late? ==> BindFirst(more) && forall x :: x in more && x.Bind? ==> Resume(x.p) in more)
  {
    var cs, v := st.callers, st.variant;
    var cs' := cs[p := cs[p].(settled := true, reactions := [])];
    var more := cs[p].reactions;
    assert ReactionsOk(v, cs, p) && ChainOk(v, cs, p);
    forall x: Job | x.p < |cs|
      ensures Due(v, cs', x) <==> (Due(v, cs, x) && x != Settle(p)) || x in more
      ensures x in more ==> !Due(v, cs, x)
    {
      assert ChainOk(v, cs, x.p) && QueueOk(cs, x.p);
    }
  }

  /** The jobs a job puts at the end of the queue. */
  function Queued(cs: seq<Caller>, j: Job): seq<Job>
    requires j.p < |cs|
  {
    match j
    case Bind(p) => [Adopt(p)]
    case Pass(p) => [Resume(p)]
    case Resume(p) => []
    case Adopt(p) => if cs[p].gateOpen then [Settle(p)] else []
    case Settle(p) => cs[p].reactions
  }

  lemma PerformJobs(st: State, i: nat)
    requires Inv(st) && Enabled(st, RunJob(i)) && Scheduled(st.variant, RunJob(i))
    ensures st.jobs[i].p < |st.callers|
    ensures Step(st, RunJob(i)).jobs == Without(st.jobs, i) + Queued(st.callers, st.jobs[i])
    ensures JobsOk(st.variant, Step(st, RunJob(i)).callers, Step(st, RunJob(i)).jobs)
  {
    hide TailsOk, QueueOk, BindFirst;
    var cs, cs', j, v := st.callers, Step(st, RunJob(i)).callers, st.jobs[i], st.variant;
    HeadIsDue(st, i);
    assert ChainOk(v, cs, j.p);
    WithoutJob(st.jobs, i);
    if j.Settle? {
      SettleDue(st, j.p);
    }
    JobsStep(v, cs, cs', st.jobs, i, Queued(cs, j));
  }

  lemma PerformBindFirst(st: State, i: nat)
    requires Inv(st) && Enabled(st, RunJob(i)) && Scheduled(st.variant, RunJob(i)) && st.variant.Late?
    ensures BindFirst(Step(st, RunJob(i)).jobs)
  {
    hide TailsOk, QueueOk, ChainOk, BindFirst, Due;
    PerformJobs(st, i);
    HeadIsDue(st, i);
    WithoutJob(st.jobs, i);
    var more := Queued(st.callers, st.jobs[i]);
    if st.jobs[i].Settle? { SettleDue(st, st.jobs[i].p); }
    forall x | x in more && x.Bind?
      ensures Resume(x.p) !in Without(st.jobs, i)
    {
      assert Resume(x.p) in more;
    }
    WithJobsBindFirst(Without(st.jobs, i), more);
  }

  lemma PerformInv(st: State, i: nat)
    requires Inv(st) && Enabled(st, RunJob(i)) && Scheduled(st.variant, RunJob(i))
    ensures Inv(Step(st, RunJob(i)))
  {
    hide QueueOk, ChainOk, ReactionsOk, TailsOk, JobsOk, BindFirst;
    forall x: nat | x < |st.callers|
      ensures QueueOk(Step(st, RunJob(i)).callers, x) && ChainOk(st.variant, Step(st, RunJob(i)).callers, x)
      ensures ReactionsOk(st.variant, Step(st, RunJob(i)).callers, x)
    {
      PerformQueue(st, i, x);
      PerformChain(st, i, x);
      PerformReactions(st, i, x);
    }
    forall k: nat
      ensures TailsOk(Step(st, RunJob(i)).callers, Step(st, RunJob(i)).tails, k)
    {
      PerformTails(st, i, k);
    }
    PerformJobs(st, i);
    if st.variant.Late? { PerformBindFirst(st, i); }
  }

  lemma ExitInv(st: State, p: nat)
    requires Inv(st) && Enabled(st, Exit(p))
    ensures Inv(ExitCaller(st, p))
  {
    var cs, v, st' := st.callers, st.variant, ExitCaller(st, p);
    var cs' := st'.callers;
    assert ChainOk(v, cs, p) && QueueOk(cs, p);
    forall x: nat | x < |cs|
      ensures QueueOk(cs', x) && ChainOk(v, cs', x) && ReactionsOk(v, cs', x)
    {
      assert QueueOk(cs, x) && ChainOk(v, cs, x) && ReactionsOk(v, cs, x);
    }
    forall k: nat
      ensures TailsOk(cs', st'.tails, k)
    {
      assert TailsOk(cs, st.tails, k);
      ExitTails(st, p, k);
    }
    var more := if cs[p].bound && cs[p].adopted then [Settle(p)] else [];
    JobsAdded(v, cs, cs', st.jobs, more);
    if v.Late? { WithJobsBindFirst(st.jobs, more); }
  }

  lemma ExitTails(st: State, p: nat, k: nat)
    requires Inv(st) && Enabled(st, Exit(p))
    ensures TailsOk(ExitCaller(st, p).callers, ExitCaller(st, p).tails, k)
  {
    var cs, st' := st.callers, ExitCaller(st, p);
    assert TailsOk(cs, st.tails, k) && QueueOk(cs, p);
    assert forall r :: 0 <= r < |cs| ==> st'.callers[r].key == cs[r].key;
  }
}
