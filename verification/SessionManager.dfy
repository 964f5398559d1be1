/**
 * The session manager's operations as straight code over a token cache whose calls may be rejected.
 *
 * Each method is proved to follow a run of the SessionStore machine, so what holds over all runs holds for the code:
 * - `st` is the machine state before a method and `st'` the one after it,
 * - `es` are the events of the run in between,
 * - `mid` is the state in which the method has made its last call to the cache,
 * - `expired` says whether the clock is past the stored expiry.
 */
module SessionManager {
  import opened Text
  import opened SessionStore

  /** How one call to the cache goes: it resolves, or it is rejected without or after having taken effect. */
  datatype Fault = NoFault | Lost | TookEffect

  function Settled(f: Fault, key: Key, expired: bool): Event {
    Call(f.NoFault?, f.TookEffect?, key, expired)
  }

  datatype Read = Found(save: nat) | Missing | ReadThrew

  datatype Cleared = Cleared(ok: bool) | ClearRejected

  lemma {:induction false} RunsOneMore(a: State, es: seq<Event>, b: State, e: Event)
    requires Runs(a, es, b) && Enabled(b, e)
    ensures Runs(a, es + [e], Step(b, e))
    ensures Undisturbed(es) && e.Call? && e.ok ==> Undisturbed(es + [e])
    decreases |es|
  {
    hide Step, Enabled;
    if es == [] {
      assert [e][1..] == [] && es + [e] == [e];
      assert Runs(Step(b, e), [], Step(b, e));
    } else {
      RunsOneMore(Step(a, es[0]), es[1..], b, e);
      assert (es + [e])[1..] == es[1..] + [e];
    }
  }

  lemma FirstCall(a: State, e: Event)
    requires Enabled(a, e)
    ensures Runs(a, [e], Step(a, e)) && (e.Call? && e.ok ==> Undisturbed([e]))
  {
    assert Runs(Step(a, e), [], Step(a, e));
  }

  lemma {:induction false} RunsConcat(a: State, xs: seq<Event>, b: State, ys: seq<Event>, c: State)
    requires Runs(a, xs, b) && Runs(b, ys, c)
    ensures Runs(a, xs + ys, c)
    ensures Undisturbed(xs) && Undisturbed(ys) ==> Undisturbed(xs + ys)
    decreases |xs|
  {
    hide Step, Enabled;
    if xs == [] {
      assert xs + ys == ys;
    } else {
      RunsConcat(Step(a, xs[0]), xs[1..], b, ys, c);
      assert (xs + ys)[1..] == xs[1..] + ys;
    }
  }

  /** The same machine state with another store. */
  predicate SameButStore(a: State, b: State) {
    a.saves == b.saves && a.log == b.log
  }

  /** No call to this cache is ever rejected. */
  ghost predicate NoFaults(faults: nat -> Fault) {
    forall i :: faults(i).NoFault?
  }

  class TokenCache {
    var store: map<Key, Value>
    var calls: nat
    const faults: nat -> Fault

    constructor (store: map<Key, Value>, faults: nat -> Fault)
      ensures this.store == store && this.faults == faults
    {
      this.store, this.faults, this.calls := store, faults, 0;
    }

    method SaveToken(key: Key, value: Value, ghost expired: bool) returns (ok: bool, ghost e: Event)
      modifies this
      ensures e.Call? && e.ok == ok && e.key == key && e.expired == expired && (NoFaults(faults) ==> ok)
      ensures store == Written(old(store), key, value, e)
    {
      var fault := faults(calls);
      calls := calls + 1;
      e := Settled(fault, key, expired);
      ok := fault.NoFault?;
      if !fault.Lost? { store := store[key := value]; }
    }

    method DeleteToken(key: Key, ghost expired: bool) returns (ok: bool, ghost e: Event)
      modifies this
      ensures e.Call? && e.ok == ok && e.key == key && e.expired == expired && (NoFaults(faults) ==> ok)
      ensures store == Removed(old(store), key, e)
    {
      var fault := faults(calls);
      calls := calls + 1;
      e := Settled(fault, key, expired);
      ok := fault.NoFault?;
      if !fault.Lost? { store := store - {key}; }
    }

    /** None is a rejected read. */
    method GetToken(key: Key, ghost expired: bool) returns (r: Option<Option<Value>>, ghost e: Event)
      modifies this`calls
      ensures e.Call? && e.key == key && e.expired == expired && e.ok == r.Some? && (NoFaults(faults) ==> e.ok)
      ensures r.Some? ==> r.value == if key in store then Some(store[key]) else None
    {
      var fault := faults(calls);
      calls := calls + 1;
      e := Settled(fault, key, expired);
      r := if !fault.NoFault? then None else if key in store then Some(Some(store[key])) else Some(None);
    }
  }

  /** The point of a batch of deletes with these keys left and this result so far. */
  function Deleting(at: Point, todo: set<Key>, ok: bool): Point
    requires at.ClearDelete? || at.SaveDelete? || at.LegacyDelete?
  {
    at.(todo := todo, ok := ok)
  }

  predicate KeptOutside(keys: set<Key>, a: map<Key, Value>, b: map<Key, Value>) {
    forall k :: k !in keys ==> (k in a <==> k in b) && (k in a ==> b[k] == a[k])
  }

  predicate Gone(keys: set<Key>, store: map<Key, Value>) {
    forall k :: k in keys ==> k !in store
  }

  /** Deletes are started together and settle in any order. */
  method DeleteTokenKeys(cache: TokenCache, keys: set<Key>, ghost expired: bool, ghost st: State)
    returns (ok: bool, ghost es: seq<Event>, ghost st': State)
    requires st.at.ClearDelete? || st.at.SaveDelete? || st.at.LegacyDelete?
    requires st.at == Deleting(st.at, keys, true) && st.store == cache.store
    modifies cache
    ensures Runs(st, es, st') && st' == st.(store := cache.store, at := Deleting(st.at, {}, ok))
    ensures ok ==> forall k :: k in keys ==> k !in cache.store
    ensures NoFaults(cache.faults) ==> ok && Undisturbed(es)
    ensures KeptOutside(keys, old(cache.store), cache.store)
  {
    var todo := keys;
    ok, es, st' := true, [], st;
    while todo != {}
      invariant Runs(st, es, st') && st' == st.(store := cache.store, at := Deleting(st.at, todo, ok))
      invariant ok ==> forall k :: k in keys && k !in todo ==> k !in cache.store
      invariant NoFaults(cache.faults) ==> ok && Undisturbed(es)
      invariant todo <= keys && KeptOutside(keys, old(cache.store), cache.store)
      decreases |todo|
    {
      var key :| key in todo;
      var deleted, e := cache.DeleteToken(key, expired);
      RunsOneMore(st, es, st', e);
      es, st' := es + [e], Step(st', e);
      todo := todo - {key};
      ok := ok && deleted;
    }
  }

  /** The deletes of an operation that began in `a`, up to the point where all of them are settled. */
  method DeleteAll(cache: TokenCache, keys: set<Key>, ghost expired: bool, ghost a: State, ghost before: seq<Event>,
      ghost st: State)
    returns (ok: bool, ghost es: seq<Event>, ghost mid: State, ghost st': State)
    requires st.at.ClearDelete? || st.at.SaveDelete? || st.at.LegacyDelete?
    requires st.at == Deleting(st.at, keys, true) && st.store == cache.store && Runs(a, before, st)
    modifies cache
    ensures mid == st.(store := cache.store, at := Deleting(st.at, {}, ok))
    ensures st' == Step(mid, Call(true, false, PendingKey, expired)) && Runs(a, es, st')
    ensures ok ==> forall k :: k in keys ==> k !in cache.store
    ensures NoFaults(cache.faults) && Undisturbed(before) ==> ok && Undisturbed(es)
    ensures KeptOutside(keys, old(cache.store), cache.store)
  {
    hide Step;
    ghost var more;
    ok, more, mid := DeleteTokenKeys(cache, keys, expired, st);
    RunsConcat(a, before, st, more, mid);
    ghost var last := Call(true, false, PendingKey, expired);
    RunsOneMore(a, before + more, mid, last);
    es, st' := before + more + [last], Step(mid, last);
  }

  function ClearEnd(mid: State, c: Clearer, r: Cleared, expired: bool): State {
    match r
    case Cleared(ok) => AfterClear(mid, c, ok, expired)
    case ClearRejected => ClearThrew(mid, c)
  }

  method ClearTokenSet(cache: TokenCache, ghost c: Clearer, ghost expired: bool, ghost st: State)
    returns (r: Cleared, ghost es: seq<Event>, ghost st': State, ghost mid: State)
    requires st.at == ClearMark(c) && st.store == cache.store
    modifies cache
    ensures Runs(st, es, st') && st' == ClearEnd(mid, c, r, expired)
    ensures mid.store == cache.store && SameButStore(st, mid)
    ensures r == Cleared(true) ==> forall k :: k in CLEARED + {PendingKey} ==> k !in cache.store
    ensures NoFaults(cache.faults) ==> r == Cleared(true) && Undisturbed(es)
    ensures NoFaults(cache.faults) ==> KeptOutside(CLEARED + {PendingKey}, old(cache.store), cache.store)
  {
    hide NoFaults, Undisturbed, Runs;
    var marked, e := cache.SaveToken(PendingKey, Marker, expired);
    FirstCall(st, e);
    es, st' := [e], Step(st, e);
    mid := st.(store := cache.store, fence := if e.ok || e.takes then st.saves else st.fence);
    if !marked { return ClearRejected, es, st', mid; }
    var deleted;
    deleted, es, mid, st' := DeleteAll(cache, CLEARED, expired, st, es, st');
    if !deleted { return Cleared(false), es, st', mid; }
    var unmarked, e2 := cache.DeleteToken(PendingKey, expired);
    RunsOneMore(st, es, st', e2);
    mid := st'.(store := cache.store);
    es, st' := es + [e2], Step(st', e2);
    r := Cleared(unmarked);
  }

  /** Writing the marker, removing the legacy keys and removing the marker again keeps all other keys. */
  lemma LegacyRemoved(a: map<Key, Value>, b: map<Key, Value>, c: map<Key, Value>)
    requires b == a[PendingKey := Marker] && KeptOutside(LEGACY, b, c) && Gone(LEGACY, c)
    ensures KeptOutside(LEGACY + {PendingKey}, a, c - {PendingKey}) && Gone(LEGACY, c - {PendingKey})
  {
  }

  lemma SavedSession(a: map<Key, Value>, v: Value, b: map<Key, Value>, c: map<Key, Value>)
    requires b == a[PendingKey := Marker][SessionKey := v] && KeptOutside(LEGACY, b, c) && Gone(LEGACY, c)
    ensures var d := c - {PendingKey};
            && KeptOutside(LEGACY + {PendingKey, SessionKey}, a, d) && Gone(LEGACY, d)
            && SessionKey in d && d[SessionKey] == v && PendingKey !in d
  {
    assert SessionKey !in LEGACY;
  }

  method SaveTokenSet(cache: TokenCache, n: nat, good: bool, ghost expired: bool, ghost st: State)
    returns (ok: bool, ghost es: seq<Event>, ghost st': State)
    requires st.at == SaveMark(n, good) && st.store == cache.store
    modifies cache
    ensures Runs(st, es, st') && st'.store == cache.store && st'.saves == st.saves
    ensures if ok then st'.at == ReadMarker(ForCommit) && st'.log == st.log
              else st'.at.Idle? && st'.log == st.log + [Thrown]
    ensures NoFaults(cache.faults) ==>
              && ok && PendingKey !in cache.store && Gone(LEGACY, cache.store)
              && SessionKey in cache.store && cache.store[SessionKey] == (if good then Envelope(n) else Refused)
              && KeptOutside(LEGACY + {PendingKey, SessionKey}, old(cache.store), cache.store)
  {
    hide NoFaults, Undisturbed, Runs, CLEARED, LEGACY, KeptOutside, Gone, HasSession, HasLegacy;
    var marked, e := cache.SaveToken(PendingKey, Marker, expired);
    FirstCall(st, e);
    es, st' := [e], Step(st, e);
    if !marked { return false, es, st'; }
    var put, e1 := cache.SaveToken(SessionKey, if good then Envelope(n) else Refused, expired);
    RunsOneMore(st, es, st', e1);
    es, st' := es + [e1], Step(st', e1);
    if !put { return false, es, st'; }
    var deleted;
    ghost var mid;
    ghost var written := cache.store;
    deleted, es, mid, st' := DeleteAll(cache, LEGACY, expired, st, es, st');
    ghost var cleared := cache.store;
    if !deleted { return false, es, st'; }
    var unmarked, e2 := cache.DeleteToken(PendingKey, expired);
    RunsOneMore(st, es, st', e2);
    es, st' := es + [e2], Step(st', e2);
    ok := unmarked;
    if NoFaults(cache.faults) { SavedSession(old(cache.store), if good then Envelope(n)
      else Refused, written, cleared); }
  }

  /** The four legacy keys are read together; one rejected read rejects them all. */
  method ReadLegacy(cache: TokenCache, ghost expired: bool) returns (r: Option<bool>)
    modifies cache`calls
    ensures r.Some? ==> r.value == HasLegacy(cache.store)
    ensures NoFaults(cache.faults) ==> r.Some?
  {
    var a, _ := cache.GetToken(AccessTokenKey, expired);
    var b, _ := cache.GetToken(RefreshTokenKey, expired);
    var c, _ := cache.GetToken(IdTokenKey, expired);
    var d, _ := cache.GetToken(ExpiresAtKey, expired);
    if a.None? || b.None? || c.None? || d.None? { return None; }
    r := Some(a.value.Some? || b.value.Some? || c.value.Some? || d.value.Some?);
    assert forall k :: k in LEGACY <==> k in {AccessTokenKey, RefreshTokenKey, IdTokenKey, ExpiresAtKey};
    assert r.value ==>
      AccessTokenKey in cache.store || RefreshTokenKey in cache.store || IdTokenKey in cache.store
        || ExpiresAtKey in cache.store;
  }

  function LegacyEnd(mid: State, r: Reader, found: Option<nat>, ok: bool, expired: bool): State {
    if ok then AfterRead(mid, r, found, expired) else LegacyThrew(mid, r, found)
  }

  method DiscardLegacyTokenSet(cache: TokenCache, ghost r: Reader, ghost found: Option<nat>, ghost expired: bool,
      ghost st: State)
    returns (ok: bool, ghost es: seq<Event>, ghost st': State, ghost mid: State)
    requires st.at == LegacyCheck(r, found) && st.store == cache.store
    modifies cache
    ensures Runs(st, es, st') && st' == LegacyEnd(mid, r, found, ok, expired)
    ensures mid.store == cache.store && SameButStore(st, mid)
    ensures NoFaults(cache.faults) ==> Undisturbed(es)
    ensures NoFaults(cache.faults) ==> ok
    ensures NoFaults(cache.faults) ==>
              Gone(LEGACY, cache.store) && KeptOutside(LEGACY + {PendingKey}, old(cache.store), cache.store)
    ensures NoFaults(cache.faults) && PendingKey !in old(cache.store) ==> PendingKey !in cache.store
  {
    var legacy := ReadLegacy(cache, expired);
    ghost var check := Call(legacy.Some?, false, SessionKey, expired);
    FirstCall(st, check);
    es, st', mid := [check], Step(st, check), st;
    if legacy.None? { return false, es, st', mid; }
    if !legacy.value { return true, es, st', mid; }
    ghost var more, st1;
    ok, more, st1, mid := RemoveLegacy(cache, r, found, expired, st');
    RunsConcat(st, es, st', more, st1);
    es, st' := es + more, st1;
  }

  /** The marker protects the removal of legacy keys; a delete that fails leaves it set. */
  method RemoveLegacy(cache: TokenCache, ghost r: Reader, ghost found: Option<nat>, ghost expired: bool,
      ghost st: State)
    returns (ok: bool, ghost es: seq<Event>, ghost st': State, ghost mid: State)
    requires st.at == LegacyMark(r, found) && st.store == cache.store
    modifies cache
    ensures Runs(st, es, st') && st' == LegacyEnd(mid, r, found, ok, expired)
    ensures mid.store == cache.store && SameButStore(st, mid)
    ensures NoFaults(cache.faults) ==> Undisturbed(es)
    ensures NoFaults(cache.faults) ==> ok
    ensures NoFaults(cache.faults) ==>
              Gone(LEGACY, cache.store) && KeptOutside(LEGACY + {PendingKey}, old(cache.store), cache.store)
    ensures NoFaults(cache.faults) ==> PendingKey !in cache.store
  {
    hide NoFaults, Undisturbed, Runs, CLEARED, LEGACY, KeptOutside, Gone, HasSession, HasLegacy;
    var marked, e := cache.SaveToken(PendingKey, Marker, expired);
    FirstCall(st, e);
    mid := st.(store := cache.store);
    es, st' := [e], Step(st, e);
    if !marked { return false, es, st', mid; }
    var deleted;
    ghost var written := cache.store;
    deleted, es, mid, st' := DeleteAll(cache, LEGACY, expired, st, es, st');
    ghost var removed := cache.store;
    if !deleted { return true, es, st', mid; }
    var _, e2 := cache.DeleteToken(PendingKey, expired);
    RunsOneMore(st, es, st', e2);
    mid := st'.(store := cache.store);
    es, st' := es + [e2], Step(st', e2);
    ok := true;
    if NoFaults(cache.faults) { LegacyRemoved(old(cache.store), written, removed); }
  }

  function ReadEnd(mid: State, r: Reader, res: Read, expired: bool): State {
    match res
    case Found(n) => AfterRead(mid, r, Some(n), expired)
    case Missing => AfterRead(mid, r, None, expired)
    case ReadThrew => End(mid, Thrown)
  }

  /** A clear inside a read: what it comes to for the reader. */
  method ClearWhileReading(cache: TokenCache, inTry: bool, ghost r: Reader, ghost expired: bool, ghost st: State)
    returns (res: Read, ghost es: seq<Event>, ghost st': State, ghost mid: State)
    requires st.at == ClearMark(if inTry then InTry(r) else InCatch(r)) && st.store == cache.store
    modifies cache
    ensures Runs(st, es, st') && st' == ReadEnd(mid, r, res, expired)
    ensures mid.store == cache.store && SameButStore(st, mid)
    ensures NoFaults(cache.faults) ==> Undisturbed(es)
    ensures NoFaults(cache.faults) ==> res == Missing && Gone(CLEARED + {PendingKey}, cache.store)
    ensures NoFaults(cache.faults) ==> KeptOutside(CLEARED + {PendingKey}, old(cache.store), cache.store)
  {
    var cleared;
    cleared, es, st', mid := ClearTokenSet(cache, if inTry then InTry(r) else InCatch(r), expired, st);
    if cleared.ClearRejected? && inTry {
      ghost var more, st1;
      cleared, more, st1, mid := ClearTokenSet(cache, InCatch(r), expired, st');
      RunsConcat(st, es, st', more, st1);
      es, st' := es + more, st1;
    }
    res := if cleared.ClearRejected? then ReadThrew else Missing;
  }

  /**
   * What a read without rejected calls does to the store. A marker hides everything; a good envelope is found and
   * legacy keys go; without a session only legacy keys go; anything else is cleared.
   */
  predicate ReadWithoutFaults(before: map<Key, Value>, store: map<Key, Value>, res: Read) {
    if PendingKey in before then res == Missing && store == before
    else
      && PendingKey !in store && Gone(LEGACY, store)
      && if SessionKey in before && before[SessionKey].Envelope? then
           res == Found(before[SessionKey].save) && KeptOutside(LEGACY + {PendingKey}, before, store)
         else if SessionKey !in before || before[SessionKey] == Other("") then
           res == Missing && KeptOutside(LEGACY + {PendingKey}, before, store)
         else res == Missing && Gone(CLEARED, store)
  }

  method ReadTokenSet(cache: TokenCache, ghost r: Reader, ghost expired: bool, ghost st: State)
    returns (res: Read, ghost es: seq<Event>, ghost st': State, ghost mid: State)
    requires st.at == ReadMarker(r) && st.store == cache.store
    modifies cache
    ensures Runs(st, es, st') && st' == ReadEnd(mid, r, res, expired)
    ensures mid.store == cache.store && SameButStore(st, mid)
    ensures NoFaults(cache.faults) ==> Undisturbed(es)
    ensures NoFaults(cache.faults) ==> ReadWithoutFaults(old(cache.store), cache.store, res)
  {
    hide NoFaults, Undisturbed;
    var pending, e := cache.GetToken(PendingKey, expired);
    FirstCall(st, e);
    es, st', mid := [e], Step(st, e), st;
    if pending.None? { return ReadThrew, es, st', mid; }
    if pending.value.Some? { return Missing, es, st', mid; }
    var raw, e1 := cache.GetToken(SessionKey, expired);
    RunsOneMore(st, es, st', e1);
    mid := st';
    es, st' := es + [e1], Step(st', e1);
    if raw.None? { return ReadThrew, es, st', mid; }
    ghost var more, st1;
    if raw.value.None? || raw.value.value == Other("") || raw.value.value.Envelope? {
      var found := if raw.value.Some? && raw.value.value.Envelope? then Some(raw.value.value.save) else None;
      var ok;
      ok, more, st1, mid := DiscardLegacyTokenSet(cache, r, found, expired, st');
      RunsConcat(st, es, st', more, st1);
      es, st' := es + more, st1;
      if ok { return if found.Some? then Found(found.value) else Missing, es, st', mid; }
      if found.None? { return ReadThrew, es, st', mid; }
      res, more, st1, mid := ClearWhileReading(cache, false, r, expired, st');
    } else {
      res, more, st1, mid := ClearWhileReading(cache, raw.value.value.Refused?, r, expired, st');
    }
    RunsConcat(st, es, st', more, st1);
    es, st' := es + more, st1;
  }

  /**
   * What a restore without rejected calls comes to. A good envelope that no marker hides is returned and kept until it
   * has expired, and cleared then; a marker or a session that is refused clears everything; legacy keys always go.
   */
  predicate RestoredWithoutFaults(before: map<Key, Value>, store: map<Key, Value>, expired: bool, r: Ending) {
    if PendingKey !in before && SessionKey in before && before[SessionKey].Envelope? && !expired then
      r == Returned(before[SessionKey].save) && store == WithoutLegacy(before)
    else if PendingKey !in before && (SessionKey !in before || before[SessionKey] == Other("")) then
      r == ReturnedNull && store == WithoutLegacy(before)
    else r == ReturnedNull && store == map[]
  }

  /** The store without the four legacy keys and the marker. */
  function WithoutLegacy(store: map<Key, Value>): map<Key, Value> {
    store - {AccessTokenKey, RefreshTokenKey, IdTokenKey, ExpiresAtKey, PendingKey}
  }

  /** The legacy keys, told one by one; and a clear leaves nothing at all. */
  lemma KeysAre(before: map<Key, Value>, store: map<Key, Value>)
    ensures Gone(LEGACY, store) && PendingKey !in store && KeptOutside(LEGACY + {PendingKey}, before, store) ==>
              store == WithoutLegacy(before)
    ensures Gone(CLEARED, store) && PendingKey !in store ==> store == map[]
    ensures Gone(CLEARED + {PendingKey}, store) ==> store == map[]
  {
    assert forall k: Key :: k in LEGACY <==> k in {AccessTokenKey, RefreshTokenKey, IdTokenKey, ExpiresAtKey};
    assert forall k: Key :: k in CLEARED || k == PendingKey;
  }

  /**
   * The body of a restore: a session found is returned, unless it has expired; without one the marker is read again.
   */
  method RestoreSession(cache: TokenCache, expired: bool, ghost st: State)
    returns (r: Ending, ghost es: seq<Event>, ghost st': State)
    requires st.at == ReadMarker(ForRestore) && st.store == cache.store
    modifies cache
    ensures Runs(st, es, st') && st'.at.Idle? && st'.store == cache.store
    ensures st'.saves == st.saves && st'.log == st.log + [r]
    ensures NoFaults(cache.faults) ==> Undisturbed(es)
    ensures expired ==> !r.Returned?
    ensures NoFaults(cache.faults) ==> RestoredWithoutFaults(old(cache.store), cache.store, expired, r)
  {
    hide Step, Runs;
    var res;
    ghost var mid;
    res, es, st', mid := ReadTokenSet(cache, ForRestore, expired, st);
    KeysAre(old(cache.store), cache.store);
    if res.ReadThrew? { return Thrown, es, st'; }
    if res.Found? && !expired { return Returned(res.save), es, st'; }
    if res.Missing? {
      var pending, e := cache.GetToken(PendingKey, expired);
      Rechecked(st, es, st', e);
      es, st' := es + [e], Step(st', e);
      if pending.None? { return Thrown, es, st'; }
      if pending.value.None? { return ReturnedNull, es, st'; }
    }
    var cleared;
    ghost var more, st1;
    cleared, more, st1, mid := ClearTokenSet(cache, ByRestore, expired, st');
    RunsConcat(st, es, st', more, st1);
    KeysAre(old(cache.store), cache.store);
    r := if cleared.Cleared? && cleared.ok then ReturnedNull else Thrown;
    es, st' := es + more, st1;
  }

  /** Without rejected calls a restore recovers. */
  lemma Recovers(st: State, es: seq<Event>, st': State)
    requires Inv(st) && st.at.Idle? && Runs(BeginOp(st, SessionStore.Restore), es, st') && Undisturbed(es)
               && st'.at.Idle?
    ensures PendingKey !in st'.store && st'.log != []
    ensures st'.log[|st'.log| - 1].Returned? || st'.log[|st'.log| - 1].ReturnedNull?
    ensures st'.log[|st'.log| - 1].ReturnedNull? ==> !HasSession(st'.store)
  {
    StepInv(st, Begin(SessionStore.Restore));
    UndisturbedRestore(BeginOp(st, SessionStore.Restore), es, st');
  }

  /** A good envelope that was just saved is read back and stays; a refused one is cleared. */
  lemma ReadBack(before: map<Key, Value>, written: map<Key, Value>, store: map<Key, Value>, res: Read)
    requires ReadWithoutFaults(written, store, res) && PendingKey !in written && Gone(LEGACY, written)
    requires SessionKey in written && KeptOutside(LEGACY + {PendingKey, SessionKey}, before, written)
    ensures written[SessionKey].Envelope? ==>
              res == Found(written[SessionKey].save)
                && store == WithoutLegacy(before)[SessionKey := written[SessionKey]]
    ensures written[SessionKey] == Refused ==> res == Missing && store == map[]
  {
    KeysAre(written, store);
    assert forall k: Key :: k in LEGACY <==> k in {AccessTokenKey, RefreshTokenKey, IdTokenKey, ExpiresAtKey};
    assert forall k: Key :: k in CLEARED || k == PendingKey;
    if written[SessionKey].Envelope? {
      assert store == WithoutLegacy(written);
      assert written == WithoutLegacy(before)[SessionKey := written[SessionKey]];
    }
  }

  /** One run leads from one state to the other. */
  ghost predicate Follows(a: State, b: State) {
    exists es :: Runs(a, es, b)
  }

  lemma Followed(a: State, es: seq<Event>, b: State)
    requires Runs(a, es, b)
    ensures Follows(a, b)
  {
  }

  /** Every operation is called inside the mutex; SessionMutex shows that one runs at a time. */
  class XidSessionManager {
    const cache: TokenCache
    var saves: nat
    ghost var st: State

    ghost predicate Valid()
      reads this, cache
    {
      st.at.Idle? && st.store == cache.store && st.saves == saves && Inv(st)
    }

    constructor (cache: TokenCache)
      requires !(SessionKey in cache.store && cache.store[SessionKey].Envelope?)
      ensures Valid() && Initial(st) && this.cache == cache
    {
      this.cache := cache;
      this.saves := 0;
      this.st := State(cache.store, Idle, 0, 0, {}, []);
    }

    /** What a finished operation has made of the machine. */
    twostate predicate Ran(r: Ending)
      reads this, cache
    {
      && old(Valid()) && Valid() && Follows(old(st), st) && st.log == old(st.log) + [r]
      && old(st.fence) <= st.fence && old(st.finished) <= st.finished
      && (r.Returned? ==> old(st.fence) <= r.save && r.save in st.finished)
    }

    ghost method Finish(es: seq<Event>, st': State, r: Ending)
      requires Inv(st) && Runs(st, es, st') && st'.at.Idle? && st'.store == cache.store && st'.saves == saves
      requires st'.log == st.log + [r]
      modifies this`st
      ensures st == st' && Valid() && Follows(old(st), st)
      ensures old(st.fence) <= st.fence && old(st.finished) <= st.finished
      ensures r.Returned? ==> old(st.fence) <= r.save && r.save in st.finished
    {
      RunInv(st, es, st');
      Followed(st, es, st');
      assert st'.log[|st.log|] == r;
      st := st';
    }

    method Restore(expired: bool) returns (r: Ending)
      requires Valid()
      modifies this`st, cache
      ensures Ran(r)
      ensures NoFaults(cache.faults) ==>
                && PendingKey !in cache.store && (r.Returned? || r.ReturnedNull?)
                && (r.ReturnedNull? ==> !HasSession(cache.store))
      ensures expired ==> !r.Returned?
      ensures NoFaults(cache.faults) ==> RestoredWithoutFaults(old(cache.store), cache.store, expired, r)
    {
      hide Inv, Step, Runs;
      ghost var begun := BeginOp(st, SessionStore.Restore);
      Begun(st, SessionStore.Restore);
      ghost var es, st1;
      r, es, st1 := RestoreSession(cache, expired, begun);
      RunsConcat(st, [Begin(SessionStore.Restore)], begun, es, st1);
      if NoFaults(cache.faults) { Recovers(st, es, st1); }
      Finish([Begin(SessionStore.Restore)] + es, st1, r);
    }

    method CommitAuthorizationSession(good: bool, expired: bool) returns (r: Ending)
      requires Valid()
      modifies this, cache
      ensures Ran(r)
      ensures r.Returned? ==> r.save == old(saves)
      ensures r.Returned? || r.Thrown?
      ensures NoFaults(cache.faults) ==> r == (if good then Returned(old(saves)) else Thrown)
      ensures NoFaults(cache.faults) ==>
                cache.store == if good then WithoutLegacy(old(cache.store))[SessionKey := Envelope(old(saves))]
                  else map[]
    {
      hide Step, NoFaults, Undisturbed, Inv, ReadWithoutFaults, KeptOutside, Gone, LEGACY, CLEARED;
      ghost var begun := BeginOp(st, Commit(good));
      Begun(st, Commit(good));
      var n := saves;
      saves := saves + 1;
      var saved;
      ghost var es, st1;
      saved, es, st1 := SaveTokenSet(cache, n, good, expired, begun);
      RunsConcat(st, [Begin(Commit(good))], begun, es, st1);
      es := [Begin(Commit(good))] + es;
      if !saved {
        Finish(es, st1, Thrown);
        return Thrown;
      }
      var res;
      ghost var more, st2, mid;
      ghost var written := cache.store;
      res, more, st2, mid := ReadTokenSet(cache, ForCommit, expired, st1);
      if NoFaults(cache.faults) { ReadBack(old(cache.store), written, cache.store, res); }
      RunsConcat(st, es, st1, more, st2);
      r := if res.Found? then Returned(res.save) else Thrown;
      ghost var all := es + more;
      if res.Found? { OwnSession(st, es, st1, more, st2); }
      Finish(all, st2, r);
    }

    /** `clear` and `signOut`: a clear that reports failure is thrown. */
    method Clear() returns (r: Ending)
      requires Valid()
      modifies this`st, cache
      ensures Ran(r)
      ensures NoFaults(cache.faults) ==> r == ClearResult(true)
      ensures r == ClearResult(true) ==> cache.store == map[]
      ensures r.ClearResult? || r.Thrown?
    {
      hide Step;
      ghost var begun := BeginOp(st, SessionStore.Clear);
      Begun(st, SessionStore.Clear);
      var cleared;
      ghost var es, st1, mid;
      cleared, es, st1, mid := ClearTokenSet(cache, ByCaller, false, begun);
      RunsConcat(st, [Begin(SessionStore.Clear)], begun, es, st1);
      r := if cleared.Cleared? then ClearResult(cleared.ok) else Thrown;
      KeysAre(old(cache.store), cache.store);
      Finish([Begin(SessionStore.Clear)] + es, st1, r);
    }
  }

  lemma Begun(st: State, op: Op)
    requires st.at.Idle?
    ensures Runs(st, [Begin(op)], BeginOp(st, op))
  {
    assert Runs(BeginOp(st, op), [], BeginOp(st, op));
  }

  lemma Rechecked(a: State, es: seq<Event>, b: State, e: Event)
    requires Runs(a, es, b) && b.at == RestoreRecheck && e.Call?
    ensures Enabled(b, e) && Runs(a, es + [e], Step(b, e))
    ensures Step(b, e) == if !e.ok then End(b, Thrown)
                          else if PendingKey in b.store then b.(at := ClearMark(ByRestore))
                          else End(b, ReturnedNull)
  {
    RunsOneMore(a, es, b, e);
  }

  /** What a read under a commit's own fence returns is the latest save. */
  lemma OwnSession(a: State, es: seq<Event>, b: State, more: seq<Event>, c: State)
    requires Inv(a) && Runs(a, es, b) && b.at == ReadMarker(ForCommit) && Runs(b, more, c)
    requires |c.log| == |b.log| + 1 && c.saves == b.saves && c.log[|b.log|].Returned?
    ensures c.log[|b.log|].save == b.saves - 1
  {
    RunInv(a, es, b);
    RunInv(b, more, c);
  }
}
