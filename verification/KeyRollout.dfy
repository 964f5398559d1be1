/**
 * How the platform rotates signing keys: the daily job and the activate route work on the stored rows, each on its own
 * clock, while JWKS are rendered from the rows, cached under the active kid, and kept again by verifiers.
 */
module KeyRollout {
  import opened Text
  import opened KeyRotation

  const JWKS_TTL: int := 3600 * 1000
  const MAX_TOKEN: int := 86400 * 1000
  const GRACE: int := MAX_TOKEN + JWKS_TTL
  const FALLBACK: int := 60 * 60 * 1000

  /** A stored key; `createdAt` is the time its insert was prepared, `since` the time it was committed. */
  datatype Stored = Stored(key: Row, createdAt: int, since: int, retireAfter: Option<int>)

  /** A JWKS made at time `at`, when the first `upTo` rows were stored; rows are only ever appended. */
  datatype Rendering = Rendering(jwks: seq<PublicJwk>, at: int, upTo: nat)

  /** A request to the JWKS endpoint that has read the rows, and the cache key it will use. */
  datatype Pending = Pending(kid: string, from: Rendering)

  datatype CacheEntry = CacheEntry(from: Rendering, putAt: int)

  /** What a verifier was served, and when. */
  datatype Served = Served(from: Rendering, at: int)

  datatype State = State(
    clock: int,
    rows: seq<Stored>,
    pending: seq<Pending>,
    kv: map<string, CacheEntry>,
    served: seq<Served>)

  datatype Act =
    | Insert(row: Row)              // the daily job publishes a next key
    | Activate(kid: string)         // the activate route
    | RetireDue                     // the daily job takes due keys down
    | Backfill                      // the daily job dates retiring keys without a date
    | ReadRows                      // a JWKS request has loaded its key set
    | Answer(p: nat, miss: bool)    // it is served, from the cache or not

  /** An act reads the clock at `now` and commits at `at`. */
  datatype Event = Event(now: int, at: int, act: Act)

  function View(rows: seq<Stored>): Rows {
    seq(|rows|, i requires 0 <= i < |rows| => rows[i].key)
  }

  // ---------------------------------------------------------------- the statements

  /** The unique kid, and the one `next` key an instance may have; a violation inserts nothing. */
  predicate Conflicts(rows: seq<Stored>, row: Row) {
    exists i :: 0 <= i < |rows| && (rows[i].key.kid == row.kid || rows[i].key.status == "next")
  }

  /** The gate of the activate batch. */
  predicate CanActivate(rows: seq<Stored>, kid: string, now: int) {
    exists i :: 0 <= i < |rows| && rows[i].key.kid == kid && rows[i].key.status == "next"
      && rows[i].createdAt <= now - JWKS_TTL
  }

  function WithStatus(r: Stored, status: string, retireAfter: Option<int>): Stored {
    r.(key := r.key.(status := status), retireAfter := retireAfter)
  }

  /** The two updates behind the gate. */
  function Activated(r: Stored, kid: string, now: int): Stored {
    if r.key.kid != kid && r.key.status == "active" then WithStatus(r, "retiring", Some(now + GRACE))
    else if r.key.kid == kid && r.key.status == "next" then WithStatus(r, "active", None)
    else r
  }

  function RetiredIfDue(r: Stored, now: int): Stored {
    if r.key.status == "retiring" && r.retireAfter.Some? && r.retireAfter.value < now
    then WithStatus(r, "retired", r.retireAfter) else r
  }

  function Backfilled(r: Stored, now: int): Stored {
    if r.key.status == "retiring" && r.retireAfter.None? then r.(retireAfter := Some(now + FALLBACK)) else r
  }

  /** What an event makes of one row. */
  function RowAfter(r: Stored, rows: seq<Stored>, e: Event): Stored {
    match e.act
    case Activate(kid) => if CanActivate(rows, kid, e.now) then Activated(r, kid, e.now) else r
    case RetireDue => RetiredIfDue(r, e.now)
    case Backfill => Backfilled(r, e.now)
    case _ => r
  }

  function RowsAfter(rows: seq<Stored>, e: Event): seq<Stored> {
    if e.act.Insert? then (if Conflicts(rows, e.act.row) then rows else rows + [Stored(e.act.row, e.now, e.at, None)])
    else seq(|rows|, i requires 0 <= i < |rows| => RowAfter(rows[i], rows, e))
  }

  function Render(rows: seq<Stored>, at: int): Pending {
    var ks := BuildSigningKeySet(View(rows));
    Pending(ks.activeKid, Rendering(BuildJwks(ks.keys), at, |rows|))
  }

  /** An entry of the cache younger than its time to live is served as it is; otherwise the request stores its own. */
  function Chosen(kv: map<string, CacheEntry>, r: Pending, at: int, miss: bool): CacheEntry {
    if !miss && r.kid in kv && at < kv[r.kid].putAt + JWKS_TTL then kv[r.kid] else CacheEntry(r.from, at)
  }

  /** A new key has status next and both halves of one pair; nothing takes longer than `delay`. */
  predicate Enabled(st: State, e: Event, delay: nat) {
    && st.clock <= e.at && e.now <= e.at <= e.now + delay
    && match e.act
       case Insert(row) => row.status == "next" && row.alg in ALGS && row.publicKey.pair == row.privatePair
       case Answer(p, _) => p < |st.pending| && e.at <= st.pending[p].from.at + delay
       case _ => true
  }

  function Step(st: State, e: Event): State {
    match e.act
    case ReadRows => st.(clock := e.at, pending := st.pending + [Render(st.rows, e.at)])
    case Answer(p, miss) =>
      if p >= |st.pending| then st
      else
        var r := st.pending[p];
        var entry := Chosen(st.kv, r, e.at, miss);
        st.(clock := e.at, kv := st.kv[r.kid := entry], served := st.served + [Served(entry.from, e.at)])
    case _ => st.(clock := e.at, rows := RowsAfter(st.rows, e))
  }

  predicate Runs(st: State, es: seq<Event>, st': State, delay: nat)
    decreases |es|
  {
    if es == [] then st == st' else Enabled(st, es[0], delay) && Runs(Step(st, es[0]), es[1..], st', delay)
  }

  predicate Bootstrapped(key: Row) {
    key.status == "active" && key.alg in ALGS && key.publicKey.pair == key.privatePair
  }

  /** An instance bootstrapped just before `start`: one active key and nothing rendered yet. */
  function Init(key: Row, start: int): State {
    State(start, [Stored(key, start - 1, start - 1, None)], [], map[], [])
  }

  // ---------------------------------------------------------------- the invariant

  predicate RowOk(r: Stored, clock: int, start: int, delay: nat) {
    && r.key.publicKey.pair == r.key.privatePair && r.key.alg in ALGS
    && r.key.status in {"next", "active", "retiring", "retired"}
    && r.since <= clock && (r.since < start || r.since <= r.createdAt + delay)
    && (r.key.status == "active" ==> r.since < start || r.createdAt + JWKS_TTL <= clock)
    && (r.key.status == "retired" ==> r.retireAfter.Some? && r.retireAfter.value < clock)
  }

  predicate RowsOk(rows: seq<Stored>, clock: int, start: int, delay: nat) {
    forall i :: 0 <= i < |rows| ==> RowOk(rows[i], clock, start, delay)
  }

  predicate OneNext(rows: seq<Stored>) {
    forall i, j :: 0 <= i < j < |rows| && rows[i].key.status == "next" ==> rows[j].key.status != "next"
  }

  ghost predicate KeysOk(rows: seq<Stored>) {
    UniqueKids(View(rows)) && OneActive(View(rows)) && OneNext(rows)
  }

  /** The row was not due to be retired by this time. */
  predicate NotDue(r: Stored, time: int) {
    r.key.status == "retired" ==> r.retireAfter.Some? && time <= r.retireAfter.value
  }

  predicate Lists(jwks: seq<PublicJwk>, r: Stored) {
    ResolveKey(r.key.kid, jwks) == Some(MaterialToJwk(r.key))
  }

  /** Rows are stored in the order of time, and the rendering knows the first of them. */
  predicate MadeFrom(v: Rendering, rows: seq<Stored>) {
    && v.upTo <= |rows|
    && (forall i :: 0 <= i < v.upTo ==> rows[i].since <= v.at)
    && (forall i :: v.upTo <= i < |rows| ==> v.at <= rows[i].since)
  }

  predicate StoredKid(rows: seq<Stored>, upTo: nat, kid: string) {
    exists i :: 0 <= i < upTo && i < |rows| && rows[i].key.kid == kid
  }

  /** Every listed kid is one of the rows that were stored. */
  predicate OnlyStored(v: Rendering, rows: seq<Stored>) {
    forall j :: 0 <= j < |v.jwks| ==> StoredKid(rows, v.upTo, v.jwks[j].kid)
  }

  /** A rendering lists every key that was stored and not due when it was made, and no kid that was not stored. */
  predicate RenderingOk(v: Rendering, rows: seq<Stored>, clock: int, start: int) {
    && start <= v.at <= clock && MadeFrom(v, rows) && OnlyStored(v, rows)
    && forall i {:trigger rows[i]} :: 0 <= i < v.upTo && NotDue(rows[i], v.at) ==> Lists(v.jwks, rows[i])
  }

  predicate RenderingsOk(st: State, start: int, delay: nat) {
    && (forall p :: 0 <= p < |st.pending| ==> RenderingOk(st.pending[p].from, st.rows, st.clock, start))
    && (forall kid :: kid in st.kv ==>
          RenderingOk(st.kv[kid].from, st.rows, st.clock, start) && st.kv[kid].putAt <= st.kv[kid].from.at + delay)
    && (forall i :: 0 <= i < |st.served| ==>
          && RenderingOk(st.served[i].from, st.rows, st.clock, start)
          && st.served[i].at <= st.clock && st.served[i].at < st.served[i].from.at + delay + JWKS_TTL)
  }

  ghost predicate Inv(st: State, start: int, delay: nat) {
    start <= st.clock && KeysOk(st.rows) && RowsOk(st.rows, st.clock, start, delay) && RenderingsOk(st, start, delay)
  }

  lemma InitInv(key: Row, start: int, delay: nat)
    requires Bootstrapped(key)
    ensures Inv(Init(key, start), start, delay)
  {
    assert IsActiveAt(View(Init(key, start).rows), 0);
  }

  // ---------------------------------------------------------------- what a step keeps

  lemma KidsAreUnique(rows: seq<Stored>, i: nat, j: nat)
    requires UniqueKids(View(rows)) && i < |rows| && j < |rows| && rows[i].key.kid == rows[j].key.kid
    ensures i == j
  {
    var view := View(rows);
    assert view[i].kid == view[j].kid;
  }

  /** What no statement changes in a row, and that nothing comes back up. */
  ghost predicate SameKey(r: Stored, r': Stored) {
    && r'.key == r.key.(status := r'.key.status) && r'.createdAt == r.createdAt && r'.since == r.since
    && forall time :: NotDue(r', time) ==> NotDue(r, time)
  }

  lemma RowStep(rows: seq<Stored>, e: Event, i: nat, clock: int, start: int, delay: nat)
    requires UniqueKids(View(rows)) && i < |rows| && RowOk(rows[i], clock, start, delay) && clock <= e.at
               && e.now <= e.at
    ensures RowOk(RowAfter(rows[i], rows, e), e.at, start, delay) && SameKey(rows[i], RowAfter(rows[i], rows, e))
  {
    if e.act.Activate? && CanActivate(rows, e.act.kid, e.now) && rows[i].key.kid == e.act.kid {
      var j :| 0 <= j < |rows| && rows[j].key.kid == e.act.kid && rows[j].key.status == "next"
        && rows[j].createdAt <= e.now - JWKS_TTL;
      KidsAreUnique(rows, i, j);
    }
  }

  /** The rows after an event: the old ones with their keys, and possibly a new one. */
  lemma RowsStep(st: State, e: Event, start: int, delay: nat)
    requires Inv(st, start, delay) && Enabled(st, e, delay)
    ensures RowsOk(Step(st, e).rows, e.at, start, delay) && |st.rows| <= |Step(st, e).rows|
    ensures forall i :: 0 <= i < |st.rows| ==> SameKey(st.rows[i], Step(st, e).rows[i])
    ensures forall i :: |st.rows| <= i < |Step(st, e).rows| ==> Step(st, e).rows[i].since == e.at
  {
    hide RenderingsOk, SameKey, RowOk, OneActive, OneNext, RowAfter, Conflicts;
    var rows, rows' := st.rows, Step(st, e).rows;
    forall i | 0 <= i < |rows|
      ensures SameKey(rows[i], rows'[i]) && RowOk(rows'[i], e.at, start, delay)
    {
      RowStep(rows, e, i, st.clock, start, delay);
      RowKept(rows[i], st.clock, e.at, start, delay);
    }
    if |rows'| > |rows| { NewRowOk(e, start, delay); }
  }

  /** A row that an event leaves alone. */
  lemma RowKept(r: Stored, clock: int, clock': int, start: int, delay: nat)
    requires RowOk(r, clock, start, delay) && clock <= clock'
    ensures RowOk(r, clock', start, delay) && SameKey(r, r)
  {
  }

  lemma NewRowOk(e: Event, start: int, delay: nat)
    requires e.act.Insert? && e.act.row.status == "next" && e.act.row.alg in ALGS
    requires e.act.row.publicKey.pair == e.act.row.privatePair && e.at <= e.now + delay
    ensures RowOk(Stored(e.act.row, e.now, e.at, None), e.at, start, delay)
  {
  }

  lemma ViewUnique(rows: seq<Stored>, rows': seq<Stored>)
    requires UniqueKids(View(rows)) && |rows| == |rows'|
    requires forall i :: 0 <= i < |rows| ==> rows'[i].key.kid == rows[i].key.kid
    ensures UniqueKids(View(rows'))
  {
    forall i, j | 0 <= i < j < |rows'|
      ensures View(rows')[i].kid != View(rows')[j].kid
    {
      assert View(rows)[i].kid != View(rows)[j].kid;
    }
  }

  /** The activate batch moves the one active key. */
  lemma ActivateKeys(rows: seq<Stored>, e: Event)
    requires KeysOk(rows) && e.act.Activate?
    ensures KeysOk(RowsAfter(rows, e))
  {
    var kid := e.act.kid;
    var rows' := RowsAfter(rows, e);
    ViewUnique(rows, rows');
    if CanActivate(rows, kid, e.now) {
      var k :| 0 <= k < |rows| && rows[k].key.kid == kid && rows[k].key.status == "next"
        && rows[k].createdAt <= e.now - JWKS_TTL;
      forall i | 0 <= i < |rows|
        ensures rows'[i].key.status == "active" <==> i == k
        ensures rows'[i].key.status == "next" ==> rows[i].key.status == "next"
      {
        if rows[i].key.kid == kid { KidsAreUnique(rows, i, k); }
      }
      assert IsActiveAt(View(rows'), k);
    } else {
      assert rows' == rows;
    }
  }

  /** The statements of the daily job leave the active key alone. */
  lemma DailyKeys(rows: seq<Stored>, e: Event)
    requires KeysOk(rows) && (e.act.RetireDue? || e.act.Backfill?)
    ensures KeysOk(RowsAfter(rows, e))
  {
    var rows' := RowsAfter(rows, e);
    ViewUnique(rows, rows');
    assert forall i :: 0 <= i < |rows| ==> (rows'[i].key.status == "active" <==> rows[i].key.status == "active");
    assert forall i :: 0 <= i < |rows| ==> (rows'[i].key.status == "next" <==> rows[i].key.status == "next");
    SameActive(View(rows), View(rows'));
  }

  lemma SameActive(rows: Rows, rows': Rows)
    requires OneActive(rows) && |rows| <= |rows'|
    requires forall i :: 0 <= i < |rows| ==> (rows'[i].status == "active" <==> rows[i].status == "active")
    requires forall i :: |rows| <= i < |rows'| ==> rows'[i].status != "active"
    ensures OneActive(rows')
  {
    var k :| IsActiveAt(rows, k);
    assert IsActiveAt(rows', k);
    assert forall i :: IsActiveAt(rows', i) ==> IsActiveAt(rows, i);
  }

  lemma InsertKeys(rows: seq<Stored>, e: Event)
    requires KeysOk(rows) && e.act.Insert? && e.act.row.status == "next"
    ensures KeysOk(RowsAfter(rows, e))
  {
    if !Conflicts(rows, e.act.row) {
      SameActive(View(rows), View(RowsAfter(rows, e)));
    }
  }

  lemma KeysStep(st: State, e: Event, delay: nat)
    requires KeysOk(st.rows) && Enabled(st, e, delay)
    ensures KeysOk(Step(st, e).rows)
  {
    hide UniqueKids, OneActive, OneNext, RowsAfter;
    match e.act {
      case Insert(_) => InsertKeys(st.rows, e);
      case Activate(_) => ActivateKeys(st.rows, e);
      case RetireDue => DailyKeys(st.rows, e);
      case Backfill => DailyKeys(st.rows, e);
      case _ =>
    }
  }

  lemma RenderStored(rows: seq<Stored>, at: int, start: int, delay: nat)
    requires RowsOk(rows, at, start, delay)
    ensures MadeFrom(Render(rows, at).from, rows) && OnlyStored(Render(rows, at).from, rows)
  {
    var view := View(rows);
    var v := Render(rows, at).from;
    forall i | 0 <= i < |rows|
      ensures rows[i].since <= at
    {
      assert RowOk(rows[i], at, start, delay);
    }
    forall j | 0 <= j < |v.jwks|
      ensures StoredKid(rows, |rows|, v.jwks[j].kid)
    {
      var r := Usable(view)[j];
      assert r in Usable(view) && r in view;
      var i :| 0 <= i < |view| && view[i] == r;
      assert rows[i].key.kid == v.jwks[j].kid;
    }
  }

  /** A new rendering lists every key that is stored and not due. */
  lemma RenderOk(rows: seq<Stored>, at: int, start: int, delay: nat)
    requires UniqueKids(View(rows)) && RowsOk(rows, at, start, delay) && start <= at
    ensures RenderingOk(Render(rows, at).from, rows, at, start)
  {
    var view := View(rows);
    var v := Render(rows, at).from;
    RenderStored(rows, at, start, delay);
    forall i | 0 <= i < |rows| && NotDue(rows[i], at)
      ensures Lists(v.jwks, rows[i])
    {
      var r := rows[i].key;
      assert RowOk(rows[i], at, start, delay) && view[i] == r && r in view && IsUsable(r);
      assert r in Usable(view);
      ResolvesIff(view, r.kid, r.alg, r.publicKey.pair);
    }
  }

  /** An older rendering stays right about the rows it was made from. */
  lemma RenderingKept(v: Rendering, rows: seq<Stored>, rows': seq<Stored>, clock: int, clock': int, start: int)
    requires RenderingOk(v, rows, clock, start) && clock <= clock' && |rows| <= |rows'|
    requires forall i :: 0 <= i < |rows| ==> SameKey(rows[i], rows'[i])
    requires forall i :: |rows| <= i < |rows'| ==> rows'[i].since == clock'
    ensures RenderingOk(v, rows', clock', start)
  {
    forall i | 0 <= i < v.upTo && NotDue(rows'[i], v.at)
      ensures Lists(v.jwks, rows'[i])
    {
      assert SameKey(rows[i], rows'[i]);
    }
    forall i | 0 <= i < |rows|
      ensures rows'[i].since == rows[i].since
    {
      assert SameKey(rows[i], rows'[i]);
    }
    forall j | 0 <= j < |v.jwks|
      ensures StoredKid(rows', v.upTo, v.jwks[j].kid)
    {
      assert StoredKid(rows, v.upTo, v.jwks[j].kid);
      var i :| 0 <= i < v.upTo && i < |rows| && rows[i].key.kid == v.jwks[j].kid;
      assert SameKey(rows[i], rows'[i]);
    }
  }

  /** All renderings held anywhere are still complete after the rows changed. */
  lemma RenderingsKept(st: State, e: Event, start: int, delay: nat)
    requires Inv(st, start, delay) && Enabled(st, e, delay)
    ensures RenderingsOk(st.(clock := e.at, rows := Step(st, e).rows), start, delay)
  {
    var rows' := Step(st, e).rows;
    RowsStep(st, e, start, delay);
    hide SameKey, RenderingOk, RowsOk, KeysOk, Step;
    forall p | 0 <= p < |st.pending|
      ensures RenderingOk(st.pending[p].from, rows', e.at, start)
    {
      RenderingKept(st.pending[p].from, st.rows, rows', st.clock, e.at, start);
    }
    forall kid | kid in st.kv
      ensures RenderingOk(st.kv[kid].from, rows', e.at, start)
    {
      RenderingKept(st.kv[kid].from, st.rows, rows', st.clock, e.at, start);
    }
    forall i | 0 <= i < |st.served|
      ensures RenderingOk(st.served[i].from, rows', e.at, start)
    {
      RenderingKept(st.served[i].from, st.rows, rows', st.clock, e.at, start);
    }
  }

  lemma AnswerKeeps(st: State, p: nat, miss: bool, start: int, delay: nat)
    requires RenderingsOk(st, start, delay) && p < |st.pending| && st.clock <= st.pending[p].from.at + delay
    ensures var r := st.pending[p];
            var entry := Chosen(st.kv, r, st.clock, miss);
            RenderingsOk(st.(kv := st.kv[r.kid := entry], served := st.served + [Served(entry.from, st.clock)]), start,
              delay)
  {
    hide RenderingOk;
  }

  lemma ReadKeeps(st: State, start: int, delay: nat)
    requires RenderingsOk(st, start, delay) && UniqueKids(View(st.rows)) && start <= st.clock
    requires RowsOk(st.rows, st.clock, start, delay)
    ensures RenderingsOk(st.(pending := st.pending + [Render(st.rows, st.clock)]), start, delay)
  {
    RenderOk(st.rows, st.clock, start, delay);
    hide RenderingOk, RowsOk, Render;
  }

  lemma RenderingsStep(st: State, e: Event, start: int, delay: nat)
    requires Inv(st, start, delay) && Enabled(st, e, delay)
    ensures RenderingsOk(Step(st, e), start, delay)
  {
    var st1 := st.(clock := e.at, rows := Step(st, e).rows);
    RenderingsKept(st, e, start, delay);
    RowsStep(st, e, start, delay);
    hide RenderingsOk, RowsOk, OneActive, OneNext, UniqueKids, SameKey, RowsAfter, Render;
    match e.act {
      case ReadRows => ReadKeeps(st1, start, delay);
      case Answer(p, miss) => AnswerKeeps(st1, p, miss, start, delay);
      case _ =>
    }
  }

  lemma {:induction false} RunInv(st: State, es: seq<Event>, st': State, start: int, delay: nat)
    requires Inv(st, start, delay) && Runs(st, es, st', delay)
    ensures Inv(st', start, delay) && st.clock <= st'.clock
    decreases |es|
  {
    hide Step, Enabled, KeysOk, RowsOk, RenderingsOk;
    if es != [] {
      StepInv(st, es[0], start, delay);
      RunInv(Step(st, es[0]), es[1..], st', start, delay);
    }
  }

  lemma StepInv(st: State, e: Event, start: int, delay: nat)
    requires Inv(st, start, delay) && Enabled(st, e, delay)
    ensures Inv(Step(st, e), start, delay) && Step(st, e).clock == e.at && st.clock <= e.at
  {
    hide KeysOk, RowsOk, RenderingsOk, RowsAfter;
    KeysStep(st, e, delay);
    RowsStep(st, e, start, delay);
    RenderingsStep(st, e, start, delay);
  }

  /** Everything but the status and the date of a row stays. */
  predicate OnlyStatus(r: Stored, r': Stored) {
    r' == r.(key := r.key.(status := r'.key.status), retireAfter := r'.retireAfter)
  }

  /** A next key of this kid is stored, an hour old or more. */
  predicate HasWaited(rows: seq<Stored>, kid: string, now: int) {
    exists j :: 0 <= j < |rows| && rows[j].key.kid == kid && rows[j].key.status == "next"
                && now - rows[j].createdAt >= 3_600_000
  }

  /**
   * What each statement makes of each row: an insert is refused exactly for a stored kid or a second next key; an
   * activation needs a next key that has waited, makes it active, and gives the old active key 25 hours; due keys are
   * taken down, the others are not; undated keys get an hour.
   */
  lemma StatementOutcome(st: State, e: Event, i: nat)
    requires KeysOk(st.rows) && i < |st.rows|
    ensures var rows, rows', r := st.rows, RowsAfter(st.rows, e), st.rows[i];
            && |rows'| >= |rows| && OnlyStatus(r, rows'[i])
            && (e.act.Insert? ==>
                  && rows'[i] == r
                  && (|rows'| == |rows| <==>
                        exists j :: 0 <= j < |rows|
                          && (rows[j].key.kid == e.act.row.kid || rows[j].key.status == "next"))
                  && (|rows'| != |rows| ==> rows' == rows + [Stored(e.act.row, e.now, e.at, None)]))
            && (!e.act.Insert? ==> |rows'| == |rows|)
            && (e.act.RetireDue? ==>
                  && (r.key.status == "retiring" && r.retireAfter.Some? && r.retireAfter.value < e.now ==>
                        rows'[i].key.status == "retired" && rows'[i].retireAfter == r.retireAfter)
                  && (!(r.key.status == "retiring" && r.retireAfter.Some? && r.retireAfter.value < e.now) ==>
                    rows'[i] == r))
            && (e.act.Backfill? ==>
                  && rows'[i].key.status == r.key.status
                  && rows'[i].retireAfter == if r.key.status == "retiring" && r.retireAfter.None?
                    then Some(e.now + 3_600_000)
                                             else r.retireAfter)
            && (e.act.Activate? ==>
                  var waited := HasWaited(rows, e.act.kid, e.now);
                  && (!waited || (r.key.kid != e.act.kid && r.key.status != "active") ==> rows'[i] == r)
                  && (waited && r.key.kid == e.act.kid ==>
                    rows'[i].key.status == "active" && rows'[i].retireAfter.None?)
                  && (waited && r.key.kid != e.act.kid && r.key.status == "active" ==>
                        rows'[i].key.status == "retiring" && rows'[i].retireAfter == Some(e.now + 90_000_000)))
  {
    if e.act.Activate? && st.rows[i].key.kid == e.act.kid && CanActivate(st.rows, e.act.kid, e.now) {
      var j :| 0 <= j < |st.rows| && st.rows[j].key.kid == e.act.kid && st.rows[j].key.status == "next"
        && st.rows[j].createdAt <= e.now - JWKS_TTL;
      KidsAreUnique(st.rows, i, j);
    }
  }

  // ---------------------------------------------------------------- over whole runs

  /**
   * However publishing, activation, retirement and rendering interleave, kids are unique, one key signs, and one waits.
   */
  lemma OneSignerAlways(key: Row, start: int, es: seq<Event>, st: State, delay: nat)
    requires Bootstrapped(key) && Runs(Init(key, start), es, st, delay)
    ensures UniqueKids(View(st.rows)) && OneActive(View(st.rows)) && OneNext(st.rows)
  {
    InitInv(key, start, delay);
    RunInv(Init(key, start), es, st, start, delay);
  }

  /** No JWKS request from the n-th on has a rendering with this kid. */
  predicate Silent(st: State, n: nat, kid: string) {
    forall p, j :: n <= p < |st.pending| && 0 <= j < |st.pending[p].from.jwks| ==> st.pending[p].from.jwks[j].kid != kid
  }

  lemma RetiredIsNotRendered(rows: seq<Stored>, at: int, k: nat)
    requires UniqueKids(View(rows)) && k < |rows| && rows[k].key.status == "retired"
    ensures forall j :: 0 <= j < |Render(rows, at).from.jwks| ==> Render(rows, at).from.jwks[j].kid != rows[k].key.kid
  {
    var view, v := View(rows), Render(rows, at).from;
    forall j | 0 <= j < |v.jwks|
      ensures v.jwks[j].kid != rows[k].key.kid
    {
      var r := Usable(view)[j];
      assert r in Usable(view) && r in view;
      var i :| 0 <= i < |view| && view[i] == r;
      assert view[k].status == "retired";
      assert i < k ==> view[i].kid != view[k].kid;
      assert k < i ==> view[k].kid != view[i].kid;
    }
  }

  lemma {:induction false} RunSilent(st: State, es: seq<Event>, st': State, start: int, delay: nat, k: nat, n: nat)
    requires Inv(st, start, delay) && Runs(st, es, st', delay) && k < |st.rows| && st.rows[k].key.status == "retired"
    requires Silent(st, n, st.rows[k].key.kid)
    ensures k < |st'.rows| && st'.rows[k].key == st.rows[k].key && Silent(st', n, st.rows[k].key.kid)
    decreases |es|
  {
    if es != [] {
      var e, mid := es[0], Step(st, es[0]);
      hide RenderingsOk, RowsOk, OneActive, OneNext, Render;
      if !e.act.ReadRows? && !e.act.Answer? { StatementOutcome(st, e, k); }
      if e.act.ReadRows? { RetiredIsNotRendered(st.rows, e.at, k); }
      StepInv(st, e, start, delay);
      RunSilent(mid, es[1..], st', start, delay, k, n);
    }
  }

  /**
   * A key taken down is gone: no JWKS request that reads the rows later lists it, and its kid resolves to nothing
   * there.
   */
  lemma RetiredIsGone(key: Row, start: int, before: seq<Event>, st: State, after: seq<Event>, st': State, delay: nat,
                      k: nat, p: nat)
    requires Bootstrapped(key) && Runs(Init(key, start), before, st, delay) && Runs(st, after, st', delay)
    requires k < |st.rows| && st.rows[k].key.status == "retired" && |st.pending| <= p < |st'.pending|
    ensures var (kid, jwks) := (st.rows[k].key.kid, st'.pending[p].from.jwks);
            ResolveKey(kid, jwks) == None || (|jwks| == 1 && jwks[0].kid == "")
  {
    InitInv(key, start, delay);
    RunInv(Init(key, start), before, st, start, delay);
    RunSilent(st, after, st', start, delay, k, |st.pending|);
  }

  /** The key signs, or will not be retired before the deadline. */
  predicate Held(r: Stored, deadline: int) {
    r.key.status == "active"
    || (r.key.status in {"retiring", "retired"} && r.retireAfter.Some? && r.retireAfter.value >= deadline)
  }

  lemma StepHolds(st: State, e: Event, delay: nat, i: nat, deadline: int)
    requires UniqueKids(View(st.rows)) && Enabled(st, e, delay) && i < |st.rows|
    requires Held(st.rows[i], deadline) && deadline <= st.clock + GRACE - delay
    ensures i < |Step(st, e).rows| && Held(Step(st, e).rows[i], deadline)
  {
  }

  lemma {:induction false} RunHolds(st: State, es: seq<Event>, st': State, start: int, delay: nat, i: nat,
      deadline: int)
    requires Inv(st, start, delay) && Runs(st, es, st', delay) && i < |st.rows|
    requires Held(st.rows[i], deadline) && deadline <= st.clock + GRACE - delay
    ensures i < |st'.rows| && Held(st'.rows[i], deadline) && SameKey(st.rows[i], st'.rows[i])
    decreases |es|
  {
    hide Step, Enabled, RowsOk, RenderingsOk, OneActive, OneNext, UniqueKids, RowOk, Held;
    if es != [] {
      StepInv(st, es[0], start, delay);
      StepHolds(st, es[0], delay, i, deadline);
      RowsStep(st, es[0], start, delay);
      RunHolds(Step(st, es[0]), es[1..], st', start, delay, i, deadline);
    }
  }

  /** The header and the pair of a token are those of the one active row. */
  lemma ActiveSigns(rows: seq<Stored>, i: nat, clock: int, start: int, delay: nat)
    requires KeysOk(rows) && RowsOk(rows, clock, start, delay) && i < |rows| && rows[i].key.status == "active"
    ensures var ks := BuildSigningKeySet(View(rows));
            ActiveKey(ks) == Header(rows[i].key.kid, rows[i].key.alg) && Signer(ks) == Some(rows[i].key.publicKey.pair)
  {
    var view, r := View(rows), rows[i].key;
    var ks := BuildSigningKeySet(view);
    forall k | k in view
      ensures k.publicKey.pair == k.privatePair
    {
      var j :| 0 <= j < |view| && view[j] == k;
      assert RowOk(rows[j], clock, start, delay);
    }
    assert RowOk(rows[i], clock, start, delay) && view[i] == r && r in view && r in Usable(view);
    SignerIsPublished(view);
    var active := FindStatus(ks.keys, "active").value;
    var j :| 0 <= j < |view| && view[j] == active;
    assert IsActiveAt(view, i) && IsActiveAt(view, j);
    assert Publishes(view, r.kid, r.alg, r.publicKey.pair);
    SamePublication(view, r.kid, r.alg, r.publicKey.pair, ActiveKey(ks).alg, Signer(ks).value);
  }

  /**
   * Rotation does not interrupt verification: a token signed under the rows of a time is judged by its own pair under
   * every JWKS rendered less than the waiting time before, less the delay, and up to the grace period after, less the
   * delay.
   */
  lemma TokenVerifies<S>(key: Row, start: int, before: seq<Event>, st: State, after: seq<Event>, st': State, delay: nat,
                         i: nat, input: string, signature: S, valid: (string, nat, string, S) -> bool)
    requires Bootstrapped(key) && Runs(Init(key, start), before, st, delay) && Runs(st, after, st', delay)
    requires i < |st'.served|
    requires st.clock - JWKS_TTL + delay < st'.served[i].from.at <= st.clock + GRACE - delay
    ensures var ks := BuildSigningKeySet(View(st.rows));
            && Signer(ks).Some?
            && VerifySignature(ActiveKey(ks), input, signature, st'.served[i].from.jwks, valid)
               == if valid(ActiveKey(ks).alg, Signer(ks).value, input, signature) then Valid else BadSignature
  {
    InitInv(key, start, delay);
    RunInv(Init(key, start), before, st, start, delay);
    RunInv(st, after, st', start, delay);
    var k :| IsActiveAt(View(st.rows), k);
    ActiveSigns(st.rows, k, st.clock, start, delay);
    RunHolds(st, after, st', start, delay, k, st.clock + GRACE - delay);
    assert RowOk(st.rows[k], st.clock, start, delay);
    var v := st'.served[i].from;
    assert RenderingOk(v, st'.rows, st'.clock, start);
    assert k < v.upTo && NotDue(st'.rows[k], v.at);
    assert Lists(v.jwks, st'.rows[k]);
  }

  /** So a token of any permitted lifetime verifies until it expires, as long as signing and committing are prompt. */
  lemma VerifiesForLife<S>(key: Row, start: int, before: seq<Event>, st: State, after: seq<Event>, st': State,
                           delay: nat, signed: int, lifetime: int, used: int,
                           i: nat, input: string, signature: S, valid: (string, nat, string, S) -> bool)
    requires Bootstrapped(key) && Runs(Init(key, start), before, st, delay) && Runs(st, after, st', delay)
    requires st.clock <= signed && signed - st.clock + delay <= JWKS_TTL && lifetime <= MAX_TOKEN
               && used <= signed + lifetime
    requires i < |st'.served| && st'.served[i].from.at <= used && st.clock - JWKS_TTL + delay < st'.served[i].from.at
    ensures var ks := BuildSigningKeySet(View(st.rows));
            && Signer(ks).Some?
            && VerifySignature(ActiveKey(ks), input, signature, st'.served[i].from.jwks, valid)
               == if valid(ActiveKey(ks).alg, Signer(ks).value, input, signature) then Valid else BadSignature
  {
    TokenVerifies(key, start, before, st, after, st', delay, i, input, signature, valid);
  }

  /** What is served is at most one time to live, and the delay, behind the rows. */
  lemma ServedIsRecent(key: Row, start: int, es: seq<Event>, st: State, delay: nat, i: nat)
    requires Bootstrapped(key) && Runs(Init(key, start), es, st, delay) && i < |st.served|
    ensures st.served[i].from.at > st.served[i].at - JWKS_TTL - delay && st.served[i].at <= st.clock
    ensures start <= st.served[i].from.at <= st.clock
  {
    InitInv(key, start, delay);
    RunInv(Init(key, start), es, st, start, delay);
  }

  lemma {:induction false} RunsConcat(st: State, xs: seq<Event>, mid: State, ys: seq<Event>, st': State, delay: nat)
    requires Runs(st, xs, mid, delay) && Runs(mid, ys, st', delay)
    ensures Runs(st, xs + ys, st', delay)
    decreases |xs|
  {
    hide Step, Enabled;
    if xs == [] {
      assert xs + ys == ys;
    } else {
      RunsConcat(Step(st, xs[0]), xs[1..], mid, ys, st', delay);
      assert (xs + ys)[1..] == xs[1..] + ys;
    }
  }

  /**
   * A verifier that keeps nothing itself: when nothing takes time, what it is served from the signing on, and before
   * the grace period is over, verifies the token.
   */
  lemma ServedVerifies<S>(key: Row, start: int, before: seq<Event>, st: State, after: seq<Event>, st': State,
                          i: nat, input: string, signature: S, valid: (string, nat, string, S) -> bool)
    requires Bootstrapped(key) && Runs(Init(key, start), before, st, 0) && Runs(st, after, st', 0)
    requires i < |st'.served| && st.clock <= st'.served[i].at && st'.served[i].from.at <= st.clock + GRACE
    ensures var ks := BuildSigningKeySet(View(st.rows));
            && Signer(ks).Some?
            && VerifySignature(ActiveKey(ks), input, signature, st'.served[i].from.jwks, valid)
               == if valid(ActiveKey(ks).alg, Signer(ks).value, input, signature) then Valid else BadSignature
  {
    RunsConcat(Init(key, start), before, st, after, st', 0);
    ServedIsRecent(key, start, before + after, st', 0, i);
    TokenVerifies(key, start, before, st, after, st', 0, i, input, signature, valid);
  }

  // ---------------------------------------------------------------- two caches are one too many

  lemma KnownIff(v: Rendering, rows: seq<Stored>, k: nat, clock: int, start: int)
    requires UniqueKids(View(rows)) && RenderingOk(v, rows, clock, start) && k < |rows|
               && rows[k].key.status != "retired"
    ensures Lists(v.jwks, rows[k]) <==> k < v.upTo
    ensures !(k < v.upTo) ==> forall j :: 0 <= j < |v.jwks| ==> v.jwks[j].kid != rows[k].key.kid
  {
    if k < v.upTo {
      assert NotDue(rows[k], v.at);
    }
    forall j | 0 <= j < |v.jwks| && v.jwks[j].kid == rows[k].key.kid
      ensures k < v.upTo
    {
      assert StoredKid(rows, v.upTo, v.jwks[j].kid);
      var i :| 0 <= i < v.upTo && i < |rows| && rows[i].key.kid == v.jwks[j].kid;
      KidsAreUnique(rows, i, k);
    }
    if Lists(v.jwks, rows[k]) {
      var found := ResolveKey(rows[k].key.kid, v.jwks).value;
      assert found in v.jwks;
      var j :| 0 <= j < |v.jwks| && v.jwks[j] == found;
    }
  }

  /**
   * Which JWKS know a key: over every run a served JWKS, however old and wherever it was kept, resolves a key that is
   * not retired exactly when the key was stored before the JWKS was rendered. Unless both happened at the same time,
   * the two times tell.
   */
  lemma ServedKnowsIff(key: Row, start: int, es: seq<Event>, st: State, delay: nat, i: nat, k: nat)
    requires Bootstrapped(key) && Runs(Init(key, start), es, st, delay)
    requires i < |st.served| && k < |st.rows| && st.rows[k].key.status != "retired"
    ensures var r, v := st.rows[k], st.served[i].from;
            && (ResolveKey(r.key.kid, v.jwks) == Some(MaterialToJwk(r.key)) <==> k < v.upTo)
            && (r.since < v.at ==> k < v.upTo) && (v.at < r.since ==> v.upTo <= k)
  {
    InitInv(key, start, delay);
    RunInv(Init(key, start), es, st, start, delay);
    KnownIff(st.served[i].from, st.rows, k, st.clock, start);
  }

  /**
   * So a verifier judges the tokens of the active key by its own pair exactly when that key was stored before its JWKS
   * was rendered, and otherwise does not know the kid; the one exception is a JWKS of one key that has the empty kid.
   */
  lemma ActiveKnownIff<S>(key: Row, start: int, es: seq<Event>, st: State, delay: nat, i: nat, k: nat,
                          input: string, signature: S, valid: (string, nat, string, S) -> bool)
    requires Bootstrapped(key) && Runs(Init(key, start), es, st, delay)
    requires i < |st.served| && k < |st.rows| && st.rows[k].key.status == "active"
    ensures var ks := BuildSigningKeySet(View(st.rows));
            var jwks := st.served[i].from.jwks;
            var verdict := VerifySignature(ActiveKey(ks), input, signature, jwks, valid);
            && Signer(ks).Some?
            && (k < st.served[i].from.upTo ==>
                  verdict == if valid(ActiveKey(ks).alg, Signer(ks).value, input, signature) then Valid
                    else BadSignature)
            && (!(k < st.served[i].from.upTo) && !(|jwks| == 1 && jwks[0].kid == "") ==> verdict == UnknownKid)
  {
    InitInv(key, start, delay);
    RunInv(Init(key, start), es, st, start, delay);
    ActiveSigns(st.rows, k, st.clock, start, delay);
    KnownIff(st.served[i].from, st.rows, k, st.clock, start);
  }

  predicate Fresh(a: Row, b: Row) {
    && Bootstrapped(a) && a.kid != b.kid && a.kid != ""
    && b.status == "next" && b.alg in ALGS && b.publicKey.pair == b.privatePair
  }

  function At(time: int, act: Act): Event { Event(time, time, act) }

  lemma {:induction false} RunsAppend(st: State, es: seq<Event>, st': State, delay: nat, e: Event)
    requires Runs(st, es, st', delay) && Enabled(st', e, delay)
    ensures Runs(st, es + [e], Step(st', e), delay)
    decreases |es|
  {
    hide Step, Enabled;
    if es == [] {
      assert [] + [e] == [e] && [e][1..] == [];
      assert Runs(Step(st', e), [], Step(st', e), delay);
    } else {
      RunsAppend(Step(st, es[0]), es[1..], st', delay, e);
      assert (es + [e])[1..] == es[1..] + [e];
    }
  }

  /** A JWKS of the one key `a`, rendered and stored in the cache at once. */
  lemma FirstRendering(a: Row, start: int, at: int) returns (es: seq<Event>, st: State)
    requires Bootstrapped(a) && start < at
    ensures Runs(Init(a, start), es, st, 0) && st.rows == Init(a, start).rows && st.clock == at && |st.pending| == 1
    ensures a.kid in st.kv && st.kv[a.kid] == CacheEntry(Rendering([MaterialToJwk(a)], at, 1), at)
  {
    var st0 := Init(a, start);
    InitInv(a, start, 0);
    ActiveSigns(st0.rows, 0, start, start, 0);
    assert View(st0.rows) == [a];
    assert Usable([a]) == [a];
    assert BuildJwks([a]) == [MaterialToJwk(a)];
    var st1 := Step(st0, At(at, ReadRows));
    assert st1.pending == [Pending(a.kid, Rendering([MaterialToJwk(a)], at, 1))];
    assert Runs(st0, [], st0, 0);
    RunsAppend(st0, [], st0, 0, At(at, ReadRows));
    RunsAppend(st0, [] + [At(at, ReadRows)], st1, 0, At(at, Answer(0, false)));
    es, st := [] + [At(at, ReadRows)] + [At(at, Answer(0, false))], Step(st1, At(at, Answer(0, false)));
  }

  /**
   * Activation waits for one time to live, but a JWKS can be almost two old: publishing a key does not change the key
   * of the cache, so a verifier may be served, and keep, what was rendered before it.
   */
  lemma TwoCachesMiss(a: Row, b: Row, start: int) returns (es: seq<Event>, st: State)
    requires Fresh(a, b)
    ensures Runs(Init(a, start), es, st, 0) && ActiveKey(BuildSigningKeySet(View(st.rows))).kid == b.kid
    ensures exists i :: 0 <= i < |st.served| && st.clock < st.served[i].at + JWKS_TTL
                        && ResolveKey(b.kid, st.served[i].from.jwks) == None
  {
    var before, st2 := FirstRendering(a, start, start + 1);
    var waiting := start + JWKS_TTL;
    var e3, e4, e5 := At(start + 2, Insert(b)), At(waiting, ReadRows), At(waiting, Answer(1, false));
    var e6 := At(waiting + 2, Activate(b.kid));
    var st3 := Step(st2, e3);
    var st4 := Step(st3, e4);
    var st5 := Step(st4, e5);
    st := Step(st5, e6);
    RunsAppend(Init(a, start), before, st2, 0, e3);
    SignsBefore(a, b, start, before + [e3], st3, 0);
    RunsAppend(Init(a, start), before + [e3], st3, 0, e4);
    RunsAppend(Init(a, start), before + [e3] + [e4], st4, 0, e5);
    RunsAppend(Init(a, start), before + [e3] + [e4] + [e5], st5, 0, e6);
    es := before + [e3] + [e4] + [e5] + [e6];
    assert st5.rows[1] == Stored(b, start + 2, start + 2, None);
    assert CanActivate(st5.rows, b.kid, waiting + 2);
    SignsAfter(a, b, start, es, st, 0);
    assert st.served[|st.served| - 1] == Served(Rendering([MaterialToJwk(a)], start + 1, 1), waiting);
  }

  lemma SignsAfter(a: Row, b: Row, start: int, es: seq<Event>, st: State, delay: nat)
    requires Bootstrapped(a) && Runs(Init(a, start), es, st, delay) && |st.rows| > 1
    requires st.rows[1].key == b.(status := "active")
    ensures ActiveKey(BuildSigningKeySet(View(st.rows))).kid == b.kid
  {
    InitInv(a, start, delay);
    RunInv(Init(a, start), es, st, start, delay);
    ActiveSigns(st.rows, 1, st.clock, start, delay);
  }

  lemma SignsBefore(a: Row, b: Row, start: int, es: seq<Event>, st: State, delay: nat)
    requires Bootstrapped(a) && Runs(Init(a, start), es, st, delay) && |st.rows| > 0 && st.rows[0].key == a
    ensures BuildSigningKeySet(View(st.rows)).activeKid == a.kid
  {
    InitInv(a, start, delay);
    RunInv(Init(a, start), es, st, start, delay);
    ActiveSigns(st.rows, 0, st.clock, start, delay);
  }

  /** What a request is served, and what it leaves in the cache. */
  lemma AnswerOutcome(st: State, e: Event, delay: nat)
    requires Enabled(st, e, delay) && e.act.Answer?
    ensures var (r, st') := (st.pending[e.act.p], Step(st, e));
            && |st'.served| == |st.served| + 1 && st'.served[..|st.served|] == st.served
            && st'.served[|st.served|].at == e.at && st'.rows == st.rows && r.kid in st'.kv
            && (!e.act.miss && r.kid in st.kv && e.at - st.kv[r.kid].putAt < 3_600_000 ==>
                  st'.served[|st.served|].from == st.kv[r.kid].from && st'.kv == st.kv)
            && (e.act.miss || r.kid !in st.kv || e.at - st.kv[r.kid].putAt >= 3_600_000 ==>
                  st'.served[|st.served|].from == r.from && st'.kv == st.kv[r.kid := CacheEntry(r.from, e.at)])
  {
  }

  // ---------------------------------------------------------------- the ages that suffice are the best possible

  /** A JWKS of exactly the waiting time, less the delay, before the signing can miss the key. */
  lemma EarlierMisses(a: Row, b: Row, start: int, delay: nat) returns (es: seq<Event>, st: State)
    requires Fresh(a, b) && delay <= JWKS_TTL
    ensures Runs(Init(a, start), es, st, delay) && ActiveKey(BuildSigningKeySet(View(st.rows))).kid == b.kid
    ensures |st.served| == 1 && st.served[0].from.at == st.clock - JWKS_TTL + delay
    ensures ResolveKey(b.kid, st.served[0].from.jwks) == None
  {
    var made := start + 1 + delay;
    var st0 := Init(a, start);
    var e1, e2 := At(made, ReadRows), At(made, Answer(0, false));
    var e3, e4 := Event(start + 1, made, Insert(b)), At(start + 1 + JWKS_TTL, Activate(b.kid));
    var st1 := Step(st0, e1);
    var st2 := Step(st1, e2);
    var st3 := Step(st2, e3);
    st := Step(st3, e4);
    NothingRuns(st0, delay);
    RunsAppend(st0, [], st0, delay, e1);
    RunsAppend(st0, [] + [e1], st1, delay, e2);
    RunsAppend(st0, [] + [e1] + [e2], st2, delay, e3);
    RunsAppend(st0, [] + [e1] + [e2] + [e3], st3, delay, e4);
    es := [] + [e1] + [e2] + [e3] + [e4];
    LoneRendering(a, start, made);
    assert st3.rows[1] == Stored(b, start + 1, made, None);
    assert CanActivate(st3.rows, b.kid, e4.now);
    SignsAfter(a, b, start, es, st, delay);
  }

  lemma LoneRendering(a: Row, start: int, at: int)
    requires Bootstrapped(a)
    ensures Render(Init(a, start).rows, at) == Pending(a.kid, Rendering([MaterialToJwk(a)], at, 1))
  {
    InitInv(a, start, 0);
    ActiveSigns(Init(a, start).rows, 0, start, start, 0);
    assert View(Init(a, start).rows) == [a];
    assert Usable([a]) == [a];
    assert BuildJwks([a]) == [MaterialToJwk(a)];
  }

  /** The rows of two keys: before, after the activation, and after the first was taken down. */
  function Pair(a: Row, statusA: string, dateA: Option<int>, b: Row, statusB: string, start: int): seq<Stored> {
    [Stored(a.(status := statusA), start - 1, start - 1, dateA), Stored(b.(status := statusB), start, start, None)]
  }

  lemma PairIsRotated(a: Row, b: Row, start: int, now: int)
    requires Fresh(a, b) && now >= start + JWKS_TTL
    ensures var one, two := Pair(a, "active", None, b, "next", start),
              Pair(a, "retiring", Some(now + GRACE), b, "active", start);
            && RowsAfter(Init(a, start).rows, At(start, Insert(b))) == one
            && (forall at :: RowsAfter(one, At(at, Backfill)) == one)
            && (forall at :: RowsAfter(one, Event(now, at, Activate(b.kid))) == two)
            && RowsAfter(two, At(now + GRACE + 1, RetireDue))
              == Pair(a, "retired", Some(now + GRACE), b, "active", start)
  {
    var one := Pair(a, "active", None, b, "next", start);
    assert one[1].key.kid == b.kid;
    assert CanActivate(one, b.kid, now);
  }

  /** The second key is published and has waited; the first still signs. */
  lemma PairWaits(a: Row, b: Row, start: int, delay: nat) returns (es: seq<Event>, st: State)
    requires Fresh(a, b)
    ensures Runs(Init(a, start), es, st, delay) && st.rows == Pair(a, "active", None, b, "next", start)
    ensures st.clock == start + JWKS_TTL + delay
  {
    var st0, e1, e2 := Init(a, start), At(start, Insert(b)), At(start + JWKS_TTL + delay, Backfill);
    PairIsRotated(a, b, start, start + JWKS_TTL);
    hide RowsAfter, Pair, Runs;
    var st1 := Step(st0, e1);
    NothingRuns(st0, delay);
    RunsAppend(st0, [], st0, delay, e1);
    RunsAppend(st0, [] + [e1], st1, delay, e2);
    es, st := [] + [e1] + [e2], Step(st1, e2);
  }

  /** Activation, by a clock that is late by the delay, retirement at the first chance, and a JWKS request. */
  lemma PairRetires(a: Row, b: Row, start: int, st: State, delay: nat) returns (es: seq<Event>, st': State)
    requires Fresh(a, b) && delay <= GRACE && st.rows == Pair(a, "active", None, b, "next", start)
    requires st.clock == start + JWKS_TTL + delay
    ensures Runs(st, es, st', delay) && |st'.pending| > 0
    ensures st'.pending[|st'.pending| - 1]
            == Render(Pair(a, "retired", Some(start + JWKS_TTL + GRACE), b, "active", start),
              start + JWKS_TTL + GRACE + 1)
  {
    var now := start + JWKS_TTL;
    var e3, e4 := Event(now, now + delay, Activate(b.kid)), At(now + GRACE + 1, RetireDue);
    var e5 := At(now + GRACE + 1, ReadRows);
    PairIsRotated(a, b, start, now);
    hide RowsAfter, Pair, Runs, Render;
    var st3 := Step(st, e3);
    var st4 := Step(st3, e4);
    NothingRuns(st, delay);
    RunsAppend(st, [], st, delay, e3);
    RunsAppend(st, [] + [e3], st3, delay, e4);
    RunsAppend(st, [] + [e3] + [e4], st4, delay, e5);
    es, st' := [] + [e3] + [e4] + [e5], Step(st4, e5);
  }

  /** A JWKS made one millisecond after the grace period, less the delay, can miss the key that signed. */
  lemma LaterMisses(a: Row, b: Row, start: int, delay: nat)
    returns (before: seq<Event>, st: State, after: seq<Event>, st': State)
    requires Fresh(a, b) && b.kid != "" && delay <= GRACE
    ensures Runs(Init(a, start), before, st, delay) && ActiveKey(BuildSigningKeySet(View(st.rows))).kid == a.kid
    ensures Runs(st, after, st', delay) && |st'.pending| > 0
    ensures var v := st'.pending[|st'.pending| - 1].from;
            v.at == st.clock + GRACE - delay + 1 && ResolveKey(a.kid, v.jwks) == None
  {
    hide Pair, Runs, ResolveKey, BuildSigningKeySet;
    before, st := PairWaits(a, b, start, delay);
    PairSigns(a, b, start, before, st, delay);
    after, st' := PairRetires(a, b, start, st, delay);
    PairIsGone(a, b, start, start + JWKS_TTL + GRACE, start + JWKS_TTL + GRACE + 1);
  }

  lemma NothingRuns(st: State, delay: nat)
    ensures Runs(st, [], st, delay)
  {
  }

  lemma PairSigns(a: Row, b: Row, start: int, es: seq<Event>, st: State, delay: nat)
    requires Bootstrapped(a) && Runs(Init(a, start), es, st, delay)
               && st.rows == Pair(a, "active", None, b, "next", start)
    ensures ActiveKey(BuildSigningKeySet(View(st.rows))).kid == a.kid
  {
    InitInv(a, start, delay);
    RunInv(Init(a, start), es, st, start, delay);
    ActiveSigns(st.rows, 0, st.clock, start, delay);
  }

  lemma PairIsGone(a: Row, b: Row, start: int, date: int, at: int)
    requires Fresh(a, b) && b.kid != ""
    ensures ResolveKey(a.kid, Render(Pair(a, "retired", Some(date), b, "active", start), at).from.jwks) == None
  {
    var rows := Pair(a, "retired", Some(date), b, "active", start);
    RetiredIsNotRendered(rows, at, 0);
    var active := b.(status := "active");
    assert View(rows) == [a.(status := "retired"), active] && View(rows)[1..] == [active] && [active][1..] == [];
    assert Usable([active]) == [active];
    assert Usable(View(rows)) == [active];
  }
}
