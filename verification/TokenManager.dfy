/**
 * The short-lived token cache: concurrent getToken calls share one fetch, and clear() starts a new generation
 * whose calls never see an older fetch.
 */
module TokenManager {
  import opened Text

  /** A token and the numeric exp claim its payload decodes to, if any. */
  datatype Token = Token(jwt: string, exp: Option<int>)

  /** Cached by the fetch with index `source`. */
  datatype Cached = Cached(token: Token, source: nat)

  /** A fetch runs, has answered (its finally callback is still queued), or is over. */
  datatype Stage = Running | Answered(result: Option<Token>) | Over(result: Option<Token>)

  datatype Fetch = Fetch(generation: nat, stage: Stage)

  /**
   * A call was served from the cache or waits for a fetch; `at` is the time and `leeway` the option it was made with.
   */
  datatype Call = Call(generation: nat, fetch: nat, hit: Option<Token>, at: int, leeway: int)

  datatype State = State(
    now: int,
    cache: Option<Cached>,
    inflight: Option<nat>,
    generation: nat,
    fetches: seq<Fetch>,
    calls: seq<Call>)

  datatype Event =
    | GetToken(skipCache: bool, leeway: int)
    | Answer(f: nat, result: Option<Token>)   // None for an error result and for a rejected request
    | Finally(f: nat)
    | Clear
    | Tick(now: int)

  function Init(): State { State(0, None, None, 0, [], []) }

  predicate IsExpiring(c: Cached, now: int, leeway: int) {
    c.token.exp.None? || now + leeway >= c.token.exp.value
  }

  predicate Enabled(st: State, e: Event) {
    match e
    case Answer(f, _) => f < |st.fetches| && st.fetches[f].stage.Running?
    case Finally(f) => f < |st.fetches| && st.fetches[f].stage.Answered?
    case _ => true
  }

  function Step(st: State, e: Event): State
    requires Enabled(st, e)
  {
    match e
    case GetToken(skipCache, leeway) =>
      if !skipCache && st.cache.Some? && !IsExpiring(st.cache.value, st.now, leeway) then
        st.(calls := st.calls
          + [Call(st.generation, st.cache.value.source, Some(st.cache.value.token), st.now, leeway)])
      else if st.inflight.Some? then
        st.(calls := st.calls + [Call(st.generation, st.inflight.value, None, st.now, leeway)])
      else
        var f := |st.fetches|;
        st.(fetches := st.fetches + [Fetch(st.generation, Running)], inflight := Some(f),
            calls := st.calls + [Call(st.generation, f, None, st.now, leeway)])
    case Answer(f, result) =>
      st.(fetches := st.fetches[f := st.fetches[f].(stage := Answered(result))],
          cache := if result.Some? && st.fetches[f].generation == st.generation then Some(Cached(result.value, f))
            else st.cache)
    case Finally(f) =>
      st.(fetches := st.fetches[f := st.fetches[f].(stage := Over(st.fetches[f].stage.result))],
          inflight := if st.inflight == Some(f) then None else st.inflight)
    case Clear => st.(generation := st.generation + 1, cache := None, inflight := None)
    case Tick(now) => st.(now := now)
  }

  predicate Runs(st: State, es: seq<Event>, st': State)
    decreases |es|
  {
    if es == [] then st == st' else Enabled(st, es[0]) && Runs(Step(st, es[0]), es[1..], st')
  }

  // ---------------------------------------------------------------- the invariant

  predicate Outstanding(f: Fetch) { !f.stage.Over? }

  /** The fetch in flight is the only outstanding one of the current generation. */
  predicate FetchOk(st: State, f: nat)
    requires f < |st.fetches|
  {
    && st.fetches[f].generation <= st.generation
    && (Outstanding(st.fetches[f]) && st.fetches[f].generation == st.generation <==> st.inflight == Some(f))
  }

  /** A generation begins a fetch only when its last one is over. */
  predicate OnePerGeneration(fetches: seq<Fetch>) {
    forall f, g :: 0 <= f < g < |fetches| && fetches[f].generation == fetches[g].generation ==> fetches[f].stage.Over?
  }

  /** A fetch of the current generation has returned this token. */
  predicate Returned(st: State, f: nat, token: Token)
    requires f < |st.fetches|
  {
    && st.fetches[f].generation == st.generation
    && !st.fetches[f].stage.Running? && st.fetches[f].stage.result == Some(token)
  }

  /** The last token that a fetch of the current generation has returned. */
  ghost predicate LastToken(st: State, f: nat, token: Token) {
    f < |st.fetches| && Returned(st, f, token)
    && forall g, other :: f < g < |st.fetches| ==> !Returned(st, g, other)
  }

  /** The cache holds that last token, or there is none. */
  ghost predicate CacheOk(st: State) {
    if st.cache.Some? then LastToken(st, st.cache.value.source, st.cache.value.token)
    else forall f, token :: 0 <= f < |st.fetches| ==> !Returned(st, f, token)
  }

  /**
   * A call is served by a fetch of its own generation; a hit is that fetch's token, good for longer than the leeway.
   */
  predicate CallOk(fetches: seq<Fetch>, generation: nat, c: Call) {
    && c.generation <= generation && c.fetch < |fetches| && fetches[c.fetch].generation == c.generation
    && (c.hit.Some? ==>
          && c.hit.value.exp.Some? && c.at + c.leeway < c.hit.value.exp.value
          && !fetches[c.fetch].stage.Running? && fetches[c.fetch].stage.result == c.hit)
  }

  ghost predicate Inv(st: State) {
    && (st.inflight.Some? ==> st.inflight.value < |st.fetches|)
    && (forall f {:trigger FetchOk(st, f)} :: 0 <= f < |st.fetches| ==> FetchOk(st, f))
    && OnePerGeneration(st.fetches)
    && CacheOk(st)
    && (forall c {:trigger CallOk(st.fetches, st.generation, st.calls[c])} :: 0 <= c < |st.calls| ==>
          CallOk(st.fetches, st.generation, st.calls[c]))
  }

  lemma StepCalls(st: State, e: Event, c: nat)
    requires Inv(st) && Enabled(st, e) && c < |Step(st, e).calls|
    ensures CallOk(Step(st, e).fetches, Step(st, e).generation, Step(st, e).calls[c])
  {
    hide OnePerGeneration;
    if c < |st.calls| {
      assert CallOk(st.fetches, st.generation, st.calls[c]);
    } else if st.inflight.Some? {
      assert FetchOk(st, st.inflight.value);
    }
  }

  lemma StepFetches(st: State, e: Event, f: nat)
    requires Inv(st) && Enabled(st, e) && f < |Step(st, e).fetches|
    ensures FetchOk(Step(st, e), f)
  {
    hide CallOk, OnePerGeneration, CacheOk;
    assert f < |st.fetches| ==> FetchOk(st, f);
    if e.Answer? || e.Finally? { assert FetchOk(st, e.f); }
  }

  lemma StepOnePerGeneration(st: State, e: Event)
    requires Inv(st) && Enabled(st, e)
    ensures OnePerGeneration(Step(st, e).fetches)
  {
    hide CallOk, CacheOk;
    forall f | 0 <= f < |st.fetches|
      ensures Outstanding(st.fetches[f]) && st.inflight.None? ==> st.fetches[f].generation < st.generation
    {
      assert FetchOk(st, f);
    }
  }

  lemma StepCache(st: State, e: Event)
    requires Inv(st) && Enabled(st, e)
    ensures CacheOk(Step(st, e))
  {
    hide CallOk;
    var st' := Step(st, e);
    forall f | 0 <= f < |st.fetches|
      ensures st.fetches[f].generation <= st.generation
      ensures st.fetches[f].generation == st.generation && Outstanding(st.fetches[f]) ==> st.inflight == Some(f)
    {
      assert FetchOk(st, f);
    }
    forall f, token | 0 <= f < |st'.fetches| && Returned(st', f, token) && !(e.Answer? && f == e.f)
      ensures f < |st.fetches| && Returned(st, f, token)
    {
    }
    if e.Answer? && st.fetches[e.f].generation == st.generation {
      forall g | e.f < g < |st.fetches|
        ensures st.fetches[g].generation != st.generation
      {
      }
    }
  }

  lemma StepInv(st: State, e: Event)
    requires Inv(st) && Enabled(st, e)
    ensures Inv(Step(st, e))
  {
    var st' := Step(st, e);
    StepOnePerGeneration(st, e);
    forall c | 0 <= c < |st'.calls|
      ensures CallOk(st'.fetches, st'.generation, st'.calls[c])
    {
      StepCalls(st, e, c);
    }
    forall f | 0 <= f < |st'.fetches|
      ensures FetchOk(st', f)
    {
      StepFetches(st, e, f);
    }
    StepCache(st, e);
  }

  lemma StepGrows(st: State, e: Event)
    requires Enabled(st, e)
    ensures Grows(st, Step(st, e))
  {
  }

  /** Calls and the generations of fetches are never rewritten, and later calls belong to later generations. */
  predicate Grows(st: State, st': State) {
    && st.generation <= st'.generation
    && |st.calls| <= |st'.calls| && (forall c :: 0 <= c < |st.calls| ==> st'.calls[c] == st.calls[c])
    && (forall c :: |st.calls| <= c < |st'.calls| ==> st'.calls[c].generation >= st.generation)
    && |st.fetches| <= |st'.fetches|
    && (forall f :: 0 <= f < |st.fetches| ==> st'.fetches[f].generation == st.fetches[f].generation)
  }

  lemma {:induction false} RunInv(st: State, es: seq<Event>, st': State)
    requires Inv(st) && Runs(st, es, st')
    ensures Inv(st') && Grows(st, st')
    decreases |es|
  {
    hide Inv, Enabled, Step;
    if es != [] {
      var mid := Step(st, es[0]);
      StepInv(st, es[0]);
      StepGrows(st, es[0]);
      RunInv(mid, es[1..], st');
    }
  }

  /** Over every interleaving the cache holds the last token that a fetch of the current generation returned, if any. */
  lemma CacheIsCurrent(es: seq<Event>, st: State)
    requires Runs(Init(), es, st)
    ensures forall f, token :: LastToken(st, f, token) <==> st.cache == Some(Cached(token, f))
  {
    RunInv(Init(), es, st);
    forall f, token | LastToken(st, f, token)
      ensures st.cache == Some(Cached(token, f))
    {
      assert Returned(st, f, token);
      if st.cache.Some? {
        var g := st.cache.value.source;
        assert Returned(st, g, st.cache.value.token);
      }
    }
  }

  /**
   * What a call comes to, at any point of any run: it is answered from the cache exactly if it does not skip it and the
   * last token of its generation outlives the leeway; otherwise it joins the open fetch of its generation, or begins
   * one.
   */
  lemma GetTokenOutcome(es: seq<Event>, st: State, skipCache: bool, leeway: int)
    requires Runs(Init(), es, st)
    ensures var st' := Step(st, GetToken(skipCache, leeway));
            && |st'.calls| == |st.calls| + 1 && st'.calls[..|st.calls|] == st.calls
            && st'.cache == st.cache && st'.generation == st.generation && st'.now == st.now
            && var call := st'.calls[|st.calls|];
               && call.generation == st.generation && call.at == st.now && call.leeway == leeway
               && (forall token :: call.hit == Some(token) <==>
                     !skipCache && token.exp.Some? && st.now + leeway < token.exp.value
                     && exists f :: LastToken(st, f, token))
               && (call.hit.Some? ==> st'.fetches == st.fetches && LastToken(st, call.fetch, call.hit.value))
               && (call.hit.None? ==>
                     if call.fetch < |st.fetches| then
                       st'.fetches == st.fetches
                       && Outstanding(st.fetches[call.fetch]) && st.fetches[call.fetch].generation == st.generation
                     else
                       && call.fetch == |st.fetches| && st'.fetches == st.fetches + [Fetch(st.generation, Running)]
                       && forall f :: 0 <= f < |st.fetches| && st.fetches[f].generation == st.generation ==>
                            !Outstanding(st.fetches[f]))
  {
    RunInv(Init(), es, st);
    CacheIsCurrent(es, st);
    forall f | 0 <= f < |st.fetches|
      ensures st.fetches[f].generation == st.generation && Outstanding(st.fetches[f]) <==> st.inflight == Some(f)
    {
      assert FetchOk(st, f);
    }
    if st.cache.Some? { assert LastToken(st, st.cache.value.source, st.cache.value.token); }
  }

  lemma StepResults(st: State, e: Event, f: nat)
    requires Enabled(st, e) && f < |st.fetches| && !st.fetches[f].stage.Running?
    ensures f < |Step(st, e).fetches| && !Step(st, e).fetches[f].stage.Running?
    ensures Step(st, e).fetches[f].stage.result == st.fetches[f].stage.result
  {
  }

  lemma {:induction false} RunResults(st: State, es: seq<Event>, st': State, f: nat)
    requires Runs(st, es, st') && f < |st.fetches| && !st.fetches[f].stage.Running?
    ensures f < |st'.fetches| && !st'.fetches[f].stage.Running?
    ensures st'.fetches[f].stage.result == st.fetches[f].stage.result
    decreases |es|
  {
    if es != [] {
      StepResults(st, es[0], f);
      RunResults(Step(st, es[0]), es[1..], st', f);
    }
  }

  /** What a call is given in the end: its hit, or what its fetch returns, an error included. */
  function Given(st: State, c: nat): Option<Option<Token>>
    requires c < |st.calls|
  {
    var call := st.calls[c];
    if call.hit.Some? then Some(call.hit)
    else if call.fetch < |st.fetches| && !st.fetches[call.fetch].stage.Running? then
      Some(st.fetches[call.fetch].stage.result)
    else None
  }

  /**
   * Everybody who joined a fetch, before or after it answered, is given its one answer for good, also after a clear.
   */
  lemma JoinedAreGivenTheAnswer(before: seq<Event>, st: State, f: nat, result: Option<Token>, after: seq<Event>,
      st': State,
                                c: nat)
    requires Runs(Init(), before, st) && Enabled(st, Answer(f, result)) && Runs(Step(st, Answer(f, result)), after, st')
    requires c < |st'.calls| && st'.calls[c].hit.None? && st'.calls[c].fetch == f
    ensures Given(st', c) == Some(result)
  {
    RunResults(Step(st, Answer(f, result)), after, st', f);
  }

  /**
   * Over every interleaving each generation has at most one outstanding fetch, and the current one has it in flight.
   */
  lemma OneOpenFetch(es: seq<Event>, st: State, f: nat, g: nat)
    requires Runs(Init(), es, st) && f < |st.fetches| && g < |st.fetches|
    requires Outstanding(st.fetches[f]) && Outstanding(st.fetches[g])
    ensures st.fetches[f].generation == st.fetches[g].generation <==> f == g
    ensures st.fetches[f].generation == st.generation <==> st.inflight == Some(f)
  {
    RunInv(Init(), es, st);
    assert FetchOk(st, f);
  }

  /** No call made after a clear is served by a fetch that began before it. */
  lemma ClearSeparates(before: seq<Event>, cleared: State, after: seq<Event>, st: State, c: nat)
    requires Runs(Init(), before, cleared) && Runs(Step(cleared, Clear), after, st)
    requires |cleared.calls| <= c < |st.calls|
    ensures st.calls[c].fetch >= |cleared.fetches|
  {
    RunInv(Init(), before, cleared);
    StepInv(cleared, Clear);
    RunInv(Step(cleared, Clear), after, st);
    assert CallOk(st.fetches, st.generation, st.calls[c]);
    var f := st.calls[c].fetch;
    assert f < |cleared.fetches| ==> FetchOk(cleared, f);
  }

  /** A call answered from the cache got a token that its fetch returned and that outlives the leeway. */
  lemma HitIsFresh(es: seq<Event>, st: State, c: nat)
    requires Runs(Init(), es, st) && c < |st.calls| && st.calls[c].hit.Some?
    ensures st.calls[c].hit.value.exp.Some? && st.calls[c].at + st.calls[c].leeway < st.calls[c].hit.value.exp.value
    ensures st.calls[c].fetch < |st.fetches| && !st.fetches[st.calls[c].fetch].stage.Running?
            && st.fetches[st.calls[c].fetch].stage.result == st.calls[c].hit
  {
    RunInv(Init(), es, st);
    assert CallOk(st.fetches, st.generation, st.calls[c]);
  }

  /** The finally callback of a fetch of an older generation leaves the fetch in flight alone. */
  lemma StaleFinallyKeepsInflight(es: seq<Event>, st: State, f: nat)
    requires Runs(Init(), es, st) && Enabled(st, Finally(f))
    ensures st.fetches[f].generation != st.generation ==> Step(st, Finally(f)).inflight == st.inflight
    ensures st.fetches[f].generation == st.generation ==>
              st.inflight == Some(f) && Step(st, Finally(f)).inflight == None
  {
    RunInv(Init(), es, st);
    assert FetchOk(st, f);
  }

  // ---------------------------------------------------------------- the object

  /** Each method is one synchronous piece of the class: the call itself, the two continuations and clear. */
  class Manager {
    var now: int
    var cache: Option<Cached>
    var inflight: Option<nat>
    var generation: nat
    var fetches: seq<Fetch>
    var calls: seq<Call>

    function View(): State
      reads this
    {
      State(now, cache, inflight, generation, fetches, calls)
    }

    constructor ()
      ensures View() == Init() && Inv(View())
    {
      now, cache, inflight, generation, fetches, calls := 0, None, None, 0, [], [];
    }

    method GetToken(skipCache: bool, leeway: int)
      requires Inv(View())
      modifies this
      ensures Inv(View()) && View() == Step(old(View()), Event.GetToken(skipCache, leeway))
    {
      StepInv(View(), Event.GetToken(skipCache, leeway));
      if !skipCache {
        var cached := cache;
        if cached.Some? && !IsExpiring(cached.value, now, leeway) {
          calls := calls + [Call(generation, cached.value.source, Some(cached.value.token), now, leeway)];
          return;
        }
      }
      Refresh(leeway);
    }

    method Refresh(leeway: int)
      modifies this`calls, this`fetches, this`inflight
      ensures if old(inflight).Some? then
                fetches == old(fetches) && inflight == old(inflight)
                && calls == old(calls) + [Call(generation, inflight.value, None, now, leeway)]
              else
                fetches == old(fetches) + [Fetch(generation, Running)] && inflight == Some(|old(fetches)|)
                && calls == old(calls) + [Call(generation, |old(fetches)|, None, now, leeway)]
    {
      if inflight.None? {
        fetches := fetches + [Fetch(generation, Running)];
        inflight := Some(|fetches| - 1);
      }
      calls := calls + [Call(generation, inflight.value, None, now, leeway)];
    }

    method FetchAnswered(f: nat, result: Option<Token>)
      requires Inv(View()) && f < |fetches| && fetches[f].stage.Running?
      modifies this
      ensures Inv(View()) && View() == Step(old(View()), Answer(f, result))
    {
      StepInv(View(), Answer(f, result));
      var generationAtStart := fetches[f].generation;
      fetches := fetches[f := fetches[f].(stage := Answered(result))];
      if result.Some? && generation == generationAtStart { cache := Some(Cached(result.value, f)); }
    }

    method FetchFinally(f: nat)
      requires Inv(View()) && f < |fetches| && fetches[f].stage.Answered?
      modifies this
      ensures Inv(View()) && View() == Step(old(View()), Finally(f))
    {
      StepInv(View(), Finally(f));
      fetches := fetches[f := fetches[f].(stage := Over(fetches[f].stage.result))];
      if inflight == Some(f) { inflight := None; }
    }

    method Clear()
      requires Inv(View())
      modifies this
      ensures Inv(View()) && View() == Step(old(View()), Event.Clear)
    {
      StepInv(View(), Event.Clear);
      generation := generation + 1;
      cache := None;
      inflight := None;
    }
  }
}
