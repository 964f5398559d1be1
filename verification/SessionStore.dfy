/**
 * The session storage of the React Native SDK: a write-ahead marker over a store in which any call may be rejected,
 * with or without having taken effect, and the process may die between any two. SessionMutex runs it inside the mutex.
 */
module SessionStore {
  import opened Text

  datatype Key =
    | SessionKey | PendingKey
    | AccessTokenKey | RefreshTokenKey | IdTokenKey | ExpiresAtKey
    | PkceVerifierKey | OauthStateKey

  /**
   * What a key can hold: the marker, the envelope of the n-th save, an envelope that is refused, or a string that does
   * not parse.
   */
  datatype Value = Marker | Envelope(save: nat) | Refused | Other(text: string)

  const LEGACY: set<Key> := {AccessTokenKey, RefreshTokenKey, IdTokenKey, ExpiresAtKey}
  const CLEARED: set<Key> := {SessionKey, PkceVerifierKey, OauthStateKey} + LEGACY

  /** Who asked for a read. */
  datatype Reader = ForRestore | ForCommit

  /** Who asked for a clear: the caller, a restore, or a read, inside its try block or in the catch. */
  datatype Clearer = ByCaller | ByRestore | InTry(r: Reader) | InCatch(r: Reader)

  /** The next store call of the running operation. */
  datatype Point =
    | Idle
    | ClearMark(c: Clearer) | ClearDelete(c: Clearer, todo: set<Key>, ok: bool) | ClearUnmark(c: Clearer)
    | SaveMark(n: nat, good: bool) | SavePut(n: nat, good: bool)
    | SaveDelete(n: nat, todo: set<Key>, ok: bool) | SaveUnmark(n: nat)
    | ReadMarker(r: Reader) | ReadSession(r: Reader)
    | LegacyCheck(r: Reader, found: Option<nat>) | LegacyMark(r: Reader, found: Option<nat>)
    | LegacyDelete(r: Reader, found: Option<nat>, todo: set<Key>, ok: bool)
    | LegacyUnmark(r: Reader, found: Option<nat>)
    | RestoreRecheck

  /** How operations end. */
  datatype Ending = Returned(save: nat) | ReturnedNull | Thrown | ClearResult(ok: bool)

  /**
   * `saves` numbers the saves begun so far. `fence` is the first save that is not yet invalidated: a clear or a save
   * raises it when it writes its marker. `finished` are the saves whose marker was removed after their envelope.
   */
  datatype State = State(store: map<Key, Value>, at: Point, saves: nat, fence: nat, finished: set<nat>,
    log: seq<Ending>)

  datatype Op = Restore | Commit(good: bool) | Clear

  datatype Event =
    | Begin(op: Op)
    // the pending call resolves, or is rejected having taken effect or not
    | Call(ok: bool, takes: bool, key: Key, expired: bool)
    | Crash

  // ---------------------------------------------------------------- how operations continue

  function End(st: State, e: Ending): State {
    st.(at := Idle, log := st.log + [e])
  }

  /** What a read hands to its caller. */
  function AfterRead(st: State, r: Reader, found: Option<nat>, expired: bool): State {
    match (r, found)
    case (ForRestore, Some(n)) => if expired then st.(at := ClearMark(ByRestore)) else End(st, Returned(n))
    case (ForRestore, None) => st.(at := RestoreRecheck)
    case (ForCommit, Some(n)) => End(st, Returned(n))
    case (ForCommit, None) => End(st, Thrown)
  }

  /** A clear that ran to its end with this result. */
  function AfterClear(st: State, c: Clearer, ok: bool, expired: bool): State {
    match c
    case ByCaller => End(st, ClearResult(ok))
    case ByRestore => End(st, if ok then ReturnedNull else Thrown)
    case InTry(r) => AfterRead(st, r, None, expired)
    case InCatch(r) => AfterRead(st, r, None, expired)
  }

  /** A clear that threw: inside the read's try block the catch clears again. */
  function ClearThrew(st: State, c: Clearer): State {
    if c.InTry? then st.(at := ClearMark(InCatch(c.r))) else End(st, Thrown)
  }

  /** The legacy cleanup threw: with an envelope in hand that is inside the try block. */
  function LegacyThrew(st: State, r: Reader, found: Option<nat>): State {
    if found.Some? then st.(at := ClearMark(InCatch(r))) else End(st, Thrown)
  }

  /** An empty string counts as no session. */
  predicate HasSession(store: map<Key, Value>) {
    SessionKey in store && store[SessionKey] != Other("")
  }

  predicate HasLegacy(store: map<Key, Value>) {
    exists k :: k in LEGACY && k in store
  }

  predicate Enabled(st: State, e: Event) {
    match e
    case Begin(_) => st.at.Idle?
    case Call(ok, _, key, _) =>
      && !st.at.Idle?
      && (st.at.ClearDelete? || st.at.SaveDelete? || st.at.LegacyDelete? ==> st.at.todo == {} || key in st.at.todo)
    case Crash => true
  }

  /** The store after a delete that resolved, or was rejected having taken effect or not. */
  function Removed(store: map<Key, Value>, key: Key, e: Event): map<Key, Value>
    requires e.Call?
  {
    if e.ok || e.takes then store - {key} else store
  }

  function Written(store: map<Key, Value>, key: Key, v: Value, e: Event): map<Key, Value>
    requires e.Call?
  {
    if e.ok || e.takes then store[key := v] else store
  }

  function BeginOp(st: State, op: Op): State {
    match op
    case Restore => st.(at := ReadMarker(ForRestore))
    case Commit(good) => st.(at := SaveMark(st.saves, good), saves := st.saves + 1)
    case Clear => st.(at := ClearMark(ByCaller))
  }

  /** Deletes run concurrently: each event settles one of them, and an event with none left moves on. */
  function CallStep(st: State, e: Event): State
    requires e.Call? && Enabled(st, e)
  {
    var s := st.store;
    match st.at
    case ClearMark(c) =>
      var st1 := st.(store := Written(s, PendingKey, Marker, e),
                     fence := if e.ok || e.takes then st.saves else st.fence);
      if e.ok then st1.(at := ClearDelete(c, CLEARED, true)) else ClearThrew(st1, c)
    case ClearDelete(c, todo, ok) =>
      if todo == {} then (if ok then st.(at := ClearUnmark(c)) else AfterClear(st, c, false, e.expired))
      else st.(store := Removed(s, e.key, e), at := ClearDelete(c, todo - {e.key}, ok && e.ok))
    case ClearUnmark(c) => AfterClear(st.(store := Removed(s, PendingKey, e)), c, e.ok, e.expired)
    case SaveMark(n, good) =>
      var st1 := st.(store := Written(s, PendingKey, Marker, e), fence := if e.ok || e.takes then n else st.fence);
      if e.ok then st1.(at := SavePut(n, good)) else End(st1, Thrown)
    case SavePut(n, good) =>
      var st1 := st.(store := Written(s, SessionKey, if good then Envelope(n) else Refused, e));
      if e.ok then st1.(at := SaveDelete(n, LEGACY, true)) else End(st1, Thrown)
    case SaveDelete(n, todo, ok) =>
      if todo == {} then (if ok then st.(at := SaveUnmark(n)) else End(st, Thrown))
      else st.(store := Removed(s, e.key, e), at := SaveDelete(n, todo - {e.key}, ok && e.ok))
    case SaveUnmark(n) =>
      var st1 := st.(store := Removed(s, PendingKey, e),
                     finished := if e.ok || e.takes then st.finished + {n} else st.finished);
      if e.ok then st1.(at := ReadMarker(ForCommit)) else End(st1, Thrown)
    case ReadMarker(r) =>
      if !e.ok then End(st, Thrown)
      else if PendingKey in s then AfterRead(st, r, None, e.expired)
      else st.(at := ReadSession(r))
    case ReadSession(r) =>
      if !e.ok then End(st, Thrown)
      else if !HasSession(s) then st.(at := LegacyCheck(r, None))
      else if s[SessionKey].Envelope? then st.(at := LegacyCheck(r, Some(s[SessionKey].save)))
      else if s[SessionKey].Refused? then st.(at := ClearMark(InTry(r)))
      else st.(at := ClearMark(InCatch(r)))
    case LegacyCheck(r, found) =>
      if !e.ok then LegacyThrew(st, r, found)
      else if !HasLegacy(s) then AfterRead(st, r, found, e.expired)
      else st.(at := LegacyMark(r, found))
    case LegacyMark(r, found) =>
      var st1 := st.(store := Written(s, PendingKey, Marker, e));
      if e.ok then st1.(at := LegacyDelete(r, found, LEGACY, true)) else LegacyThrew(st1, r, found)
    case LegacyDelete(r, found, todo, ok) =>
      if todo == {} then (if ok then st.(at := LegacyUnmark(r, found)) else AfterRead(st, r, found, e.expired))
      else st.(store := Removed(s, e.key, e), at := LegacyDelete(r, found, todo - {e.key}, ok && e.ok))
    case LegacyUnmark(r, found) => AfterRead(st.(store := Removed(s, PendingKey, e)), r, found, e.expired)
    case RestoreRecheck =>
      if !e.ok then End(st, Thrown)
      else if PendingKey in s then st.(at := ClearMark(ByRestore))
      else End(st, ReturnedNull)
    case Idle => st
  }

  function Step(st: State, e: Event): State
    requires Enabled(st, e)
  {
    match e
    case Begin(op) => BeginOp(st, op)
    case Call(_, _, _, _) => CallStep(st, e)
    case Crash => st.(at := Idle)
  }

  predicate Runs(st: State, es: seq<Event>, st': State)
    decreases |es|
  {
    if es == [] then st == st' else Enabled(st, es[0]) && Runs(Step(st, es[0]), es[1..], st')
  }

  // ---------------------------------------------------------------- the invariant

  /** A session that may be returned: not invalidated, and its save finished. */
  predicate Live(st: State, n: nat) {
    st.fence <= n < st.saves && n in st.finished
  }

  /** The envelope in the store, if any, is live. */
  predicate StoredLive(st: State) {
    SessionKey in st.store && st.store[SessionKey].Envelope? ==> Live(st, st.store[SessionKey].save)
  }

  /** A commit reads back under its own fence. */
  predicate ReaderOk(st: State, r: Reader) {
    r.ForCommit? ==> st.saves <= st.fence + 1
  }

  /** The envelope in the store, if any, is the one of the n-th save, which is the latest. */
  predicate Saving(st: State, n: nat) {
    && PendingKey in st.store && st.fence == n && n + 1 == st.saves
    && SessionKey in st.store && (st.store[SessionKey].Envelope? ==> st.store[SessionKey].save == n)
  }

  predicate FoundOk(st: State, r: Reader, found: Option<nat>) {
    StoredLive(st) && ReaderOk(st, r) && (found.Some? ==> Live(st, found.value))
  }

  predicate ClearerOk(st: State, c: Clearer) {
    c.InTry? || c.InCatch? ==> ReaderOk(st, c.r)
  }

  predicate PointOk(st: State) {
    match st.at
    case ClearMark(c) => ClearerOk(st, c)
    case ClearDelete(c, todo, ok) =>
      todo <= CLEARED && PendingKey in st.store && (ok ==> forall k :: k in CLEARED && k !in todo ==> k !in st.store)
        && st.fence == st.saves
    case ClearUnmark(c) => PendingKey in st.store && (forall k :: k in CLEARED ==> k !in st.store)
      && st.fence == st.saves
    case SaveMark(n, _) => st.fence <= n && n + 1 == st.saves && n !in st.finished
    case SavePut(n, _) => PendingKey in st.store && st.fence == n && n + 1 == st.saves
    case SaveDelete(n, todo, _) => todo <= LEGACY && Saving(st, n)
    case SaveUnmark(n) => Saving(st, n)
    case ReadMarker(r) => ReaderOk(st, r)
    case ReadSession(r) => ReaderOk(st, r) && StoredLive(st)
    case LegacyCheck(r, found) => FoundOk(st, r, found)
    case LegacyMark(r, found) => FoundOk(st, r, found)
    case LegacyDelete(r, found, todo, _) => todo <= LEGACY && PendingKey in st.store && FoundOk(st, r, found)
    case LegacyUnmark(r, found) => PendingKey in st.store && FoundOk(st, r, found)
    case _ => true
  }

  predicate Inv(st: State) {
    && st.fence <= st.saves
    && (forall n :: n in st.finished ==> n < st.saves)
    && (PendingKey !in st.store ==> StoredLive(st))
    && PointOk(st)
  }

  /** An empty log over a store that no save of this SDK version has touched. */
  predicate Initial(st: State) {
    && st.at.Idle? && st.saves == 0 && st.fence == 0 && st.finished == {} && st.log == []
    && !(SessionKey in st.store && st.store[SessionKey].Envelope?)
  }

  /** What one step may add to the log: nothing, or one ending, and a returned session is live. */
  predicate LogGrows(st: State, st': State) {
    && |st.log| <= |st'.log| <= |st.log| + 1
    && st'.log[..|st.log|] == st.log
    && (|st'.log| > |st.log| && st'.log[|st.log|].Returned? ==> Live(st', st'.log[|st.log|].save))
  }

  predicate Advances(st: State, st': State) {
    Inv(st') && st.fence <= st'.fence && st.saves <= st'.saves && st.finished <= st'.finished && LogGrows(st, st')
  }

  lemma ClearStep(st: State, e: Event)
    requires Inv(st) && e.Call? && Enabled(st, e) && (st.at.ClearMark? || st.at.ClearDelete?)
    ensures Advances(st, Step(st, e))
  {
  }

  lemma ClearUnmarkStep(st: State, e: Event)
    requires Inv(st) && e.Call? && Enabled(st, e) && st.at.ClearUnmark?
    ensures Advances(st, Step(st, e))
  {
  }

  lemma SaveStep(st: State, e: Event)
    requires Inv(st) && e.Call? && Enabled(st, e)
               && (st.at.SaveMark? || st.at.SavePut? || st.at.SaveDelete? || st.at.SaveUnmark?)
    ensures Advances(st, Step(st, e))
  {
  }

  lemma ReadStep(st: State, e: Event)
    requires Inv(st) && e.Call? && Enabled(st, e) && (st.at.ReadMarker? || st.at.ReadSession? || st.at.RestoreRecheck?)
    ensures Advances(st, Step(st, e))
  {
  }

  lemma LegacyCheckStep(st: State, e: Event)
    requires Inv(st) && e.Call? && Enabled(st, e) && st.at.LegacyCheck?
    ensures Advances(st, Step(st, e))
  {
  }

  lemma LegacyMarkStep(st: State, e: Event)
    requires Inv(st) && e.Call? && Enabled(st, e) && st.at.LegacyMark?
    ensures Advances(st, Step(st, e))
  {
  }

  lemma LegacyDeleteStep(st: State, e: Event)
    requires Inv(st) && e.Call? && Enabled(st, e) && st.at.LegacyDelete?
    ensures Advances(st, Step(st, e))
  {
  }

  lemma LegacyUnmarkStep(st: State, e: Event)
    requires Inv(st) && e.Call? && Enabled(st, e) && st.at.LegacyUnmark?
    ensures Advances(st, Step(st, e))
  {
  }

  lemma StepInv(st: State, e: Event)
    requires Inv(st) && Enabled(st, e)
    ensures Advances(st, Step(st, e))
  {
    if e.Call? {
      hide Inv, Step, LogGrows;
      match st.at
      case ClearMark(_) => ClearStep(st, e);
      case ClearDelete(_, _, _) => ClearStep(st, e);
      case ClearUnmark(_) => ClearUnmarkStep(st, e);
      case SaveMark(_, _) => SaveStep(st, e);
      case SavePut(_, _) => SaveStep(st, e);
      case SaveDelete(_, _, _) => SaveStep(st, e);
      case SaveUnmark(_) => SaveStep(st, e);
      case ReadMarker(_) => ReadStep(st, e);
      case ReadSession(_) => ReadStep(st, e);
      case RestoreRecheck => ReadStep(st, e);
      case LegacyDelete(_, _, _, _) => LegacyDeleteStep(st, e);
      case LegacyUnmark(_, _) => LegacyUnmarkStep(st, e);
      case LegacyMark(_, _) => LegacyMarkStep(st, e);
      case LegacyCheck(_, _) => LegacyCheckStep(st, e);
    }
  }

  /** Sessions handed out after this point. */
  predicate AllReturned(log: seq<Ending>, from: nat, fence: nat, finished: set<nat>) {
    forall i :: from <= i < |log| && log[i].Returned? ==> log[i].save >= fence && log[i].save in finished
  }

  /**
   * Over every run with crashes and rejected calls, only sessions behind the fence whose save finished are returned.
   */
  lemma {:induction false} RunInv(st: State, es: seq<Event>, st': State)
    requires Inv(st) && Runs(st, es, st')
    ensures Inv(st') && st.fence <= st'.fence && st.finished <= st'.finished
    ensures |st.log| <= |st'.log| && st'.log[..|st.log|] == st.log
    ensures AllReturned(st'.log, |st.log|, st.fence, st'.finished)
    decreases |es|
  {
    hide Inv, Step, Enabled;
    if es != [] {
      var mid := Step(st, es[0]);
      StepInv(st, es[0]);
      RunInv(mid, es[1..], st');
      forall i | |st.log| <= i < |st'.log| && st'.log[i].Returned?
        ensures st'.log[i].save >= st.fence && st'.log[i].save in st'.finished
      {
        if i < |mid.log| { assert st'.log[..|mid.log|][i] == mid.log[i]; }
      }
    }
  }

  /** A session is returned only if its save finished: the marker was removed after the envelope was written. */
  lemma ReturnedOnlyFinished(st: State, es: seq<Event>, st': State, i: nat)
    requires Initial(st) && Runs(st, es, st') && i < |st'.log| && st'.log[i].Returned?
    ensures st'.log[i].save in st'.finished
  {
    RunInv(st, es, st');
  }

  /**
   * No resurrection: once a clear or a save has written the marker, no session of an earlier save is ever returned,
   * whatever crashes and rejected deletes follow.
   */
  lemma NoResurrection(st: State, before: seq<Event>, marked: State, call: Event, after: seq<Event>, st': State, i: nat)
    requires Initial(st) && Runs(st, before, marked)
    requires (marked.at.ClearMark? || marked.at.SaveMark?) && call.Call? && (call.ok || call.takes)
    requires Runs(Step(marked, call), after, st')
    requires |Step(marked, call).log| <= i < |st'.log| && st'.log[i].Returned?
    ensures st'.log[i].save >= if marked.at.SaveMark? then marked.at.n else marked.saves
  {
    RunInv(st, before, marked);
    StepInv(marked, call);
    RunInv(Step(marked, call), after, st');
  }

  /**
   * A clear that reports success leaves none of the cleared keys and no marker, and only saves begun later are ever
   * returned.
   */
  lemma ClearedMeansNull(st: State, before: seq<Event>, last: State, call: Event, after: seq<Event>, st': State, i: nat)
    requires Initial(st) && Runs(st, before, last) && Enabled(last, call)
    requires Step(last, call).log == last.log + [ClearResult(true)]
    requires Runs(Step(last, call), after, st') && |last.log| < i < |st'.log| && st'.log[i].Returned?
    ensures forall k :: k in CLEARED + {PendingKey} ==> k !in Step(last, call).store
    ensures st'.log[i].save >= last.saves
  {
    RunInv(st, before, last);
    StepInv(last, call);
    ClearSucceeded(last, call);
    RunInv(Step(last, call), after, st');
  }

  lemma ClearSucceeded(last: State, call: Event)
    requires Inv(last) && Enabled(last, call)
    requires Step(last, call).log == last.log + [ClearResult(true)]
    ensures last.at == ClearUnmark(ByCaller) && call.Call? && call.ok
    ensures forall k :: k in CLEARED + {PendingKey} ==> k !in Step(last, call).store
    ensures Step(last, call).fence == last.saves
  {
    assert Step(last, call).log[|last.log|] == ClearResult(true);
  }

  /** What a commit returns is the session it saved. */
  lemma CommitReturnsOwn(st: State, es: seq<Event>, last: State, call: Event)
    requires Initial(st) && Runs(st, es, last) && Enabled(last, call) && call.Call?
    requires last.at.LegacyCheck? || last.at.LegacyDelete? || last.at.LegacyUnmark?
    requires last.at.r.ForCommit? && |Step(last, call).log| > |last.log|
    ensures Step(last, call).log[|last.log|].Returned? ==> Step(last, call).log[|last.log|].save == last.saves - 1
  {
    RunInv(st, es, last);
    StepInv(last, call);
  }

  // ---------------------------------------------------------------- what null means, and what rejections lead to

  /** A read that has found nothing so far leaves no session in sight: there is none, or the marker hides it. */
  predicate NothingInSight(st: State) {
    match st.at
    case RestoreRecheck => PendingKey in st.store || !HasSession(st.store)
    case LegacyCheck(_, found) => found.Some? || !HasSession(st.store)
    case LegacyMark(_, found) => found.Some? || !HasSession(st.store)
    case LegacyDelete(_, found, _, _) => found.Some? || !HasSession(st.store)
    case LegacyUnmark(_, found) => found.Some? || !HasSession(st.store)
    case _ => true
  }

  lemma StepInSight(st: State, e: Event)
    requires Inv(st) && NothingInSight(st) && Enabled(st, e)
    ensures NothingInSight(Step(st, e))
    ensures Step(st, e).log == st.log + [ReturnedNull] ==>
              PendingKey !in Step(st, e).store && !HasSession(Step(st, e).store)
  {
    hide HasLegacy, StoredLive, Live;
    if e.Call? && Step(st, e).log == st.log + [ReturnedNull] {
      assert Step(st, e).log[|st.log|] == ReturnedNull;
    }
  }

  lemma {:induction false} RunInSight(st: State, es: seq<Event>, st': State)
    requires Inv(st) && NothingInSight(st) && Runs(st, es, st')
    ensures Inv(st') && NothingInSight(st')
    decreases |es|
  {
    hide Inv, Step, Enabled, NothingInSight;
    if es != [] {
      StepInv(st, es[0]);
      StepInSight(st, es[0]);
      RunInSight(Step(st, es[0]), es[1..], st');
    }
  }

  /**
   * Over every run, whatever was rejected or crashed: a restore answers null only when no session and no marker is
   * left.
   */
  lemma NullMeansNone(st: State, es: seq<Event>, last: State, call: Event)
    requires Initial(st) && Runs(st, es, last) && Enabled(last, call)
    requires Step(last, call).log == last.log + [ReturnedNull]
    ensures PendingKey !in Step(last, call).store && !HasSession(Step(last, call).store)
  {
    RunInSight(st, es, last);
    StepInSight(last, call);
  }

  /** The operation has ended this way. */
  predicate EndsWith(st: State, st': State, ending: Ending) { st'.at == Idle && st'.log == st.log + [ending] }

  /** The operation goes on at this point. */
  predicate GoesOnAt(st: State, st': State, at: Point) { st'.at == at && st'.log == st.log }

  /**
   * What a rejected call leads to. Most end the operation with an error. In the try block of a read the catch clears;
   * rejected deletes of legacy keys do not matter to a read; and a clear that could not remove everything counts as a
   * failure for the caller and for a restore, and as no session for a read.
   */
  lemma RejectionOutcome(st: State, e: Event)
    requires e.Call? && !e.ok && Enabled(st, e)
    ensures var st' := Step(st, e);
            && st'.saves == st.saves && (!e.takes ==> st'.store == st.store)
            && (st.at.ReadMarker? || st.at.ReadSession? || st.at.RestoreRecheck? ==> EndsWith(st, st', Thrown))
            && (st.at.SaveMark? || st.at.SavePut? || st.at.SaveUnmark? ==> EndsWith(st, st', Thrown))
            && (st.at.LegacyCheck? || st.at.LegacyMark? ==>
                  if st.at.found.None? then EndsWith(st, st', Thrown)
                    else GoesOnAt(st, st', ClearMark(InCatch(st.at.r))))
            && (st.at.ClearMark? ==>
                  if st.at.c.InTry? then GoesOnAt(st, st', ClearMark(InCatch(st.at.c.r)))
                    else EndsWith(st, st', Thrown))
            && (st.at == ClearUnmark(ByCaller) ==> EndsWith(st, st', ClearResult(false)))
            && (st.at == ClearUnmark(ByRestore) ==> EndsWith(st, st', Thrown))
            && ((st.at.SaveDelete? || st.at.LegacyDelete? || st.at.ClearDelete?) && st.at.todo != {} ==>
                  st'.at == st.at.(todo := st.at.todo - {e.key}, ok := false) && st'.log == st.log)
  {
  }

  /** Deletes settle one by one: the key is gone if the call resolved, and one rejection is remembered to the end. */
  lemma BatchStep(st: State, e: Event)
    requires e.Call? && Enabled(st, e) && (st.at.SaveDelete? || st.at.LegacyDelete? || st.at.ClearDelete?)
    requires st.at.todo != {}
    ensures var st' := Step(st, e);
            && GoesOnAt(st, st', st.at.(todo := st.at.todo - {e.key}, ok := st.at.ok && e.ok))
            && st'.store == if e.ok || e.takes then st.store - {e.key} else st.store
  {
  }

  /** A save is finished at its last call, with the marker gone and its own envelope, if any, in the store. */
  lemma FinishedOutcome(st: State, e: Event, n: nat)
    requires Inv(st) && Enabled(st, e)
    ensures n in st.finished ==> n in Step(st, e).finished
    ensures n in Step(st, e).finished && n !in st.finished ==>
              var store := Step(st, e).store;
              && st.at == SaveUnmark(n) && PendingKey !in store && SessionKey in store
              && (store[SessionKey].Envelope? ==> store[SessionKey].save == n)
  {
  }

  /** What a batch of deletes comes to when all are settled and one was rejected. */
  lemma BatchFailed(st: State, e: Event)
    requires e.Call? && Enabled(st, e) && (st.at.SaveDelete? || st.at.LegacyDelete? || st.at.ClearDelete?)
    requires st.at.todo == {} && !st.at.ok
    ensures var st' := Step(st, e);
            && st'.store == st.store
            && (st.at.SaveDelete? ==> EndsWith(st, st', Thrown))
            && (st.at.ClearDelete? && st.at.c.ByCaller? ==> EndsWith(st, st', ClearResult(false)))
            && (st.at.ClearDelete? && st.at.c.ByRestore? ==> EndsWith(st, st', Thrown))
            && (st.at.ClearDelete? && (st.at.c == InTry(ForRestore) || st.at.c == InCatch(ForRestore)) ==>
                  GoesOnAt(st, st', RestoreRecheck))
            && (st.at.ClearDelete? && (st.at.c == InTry(ForCommit) || st.at.c == InCatch(ForCommit)) ==>
                  EndsWith(st, st', Thrown))
            && (st.at.LegacyDelete? && st.at.r.ForCommit? ==>
                  EndsWith(st, st', if st.at.found.Some? then Returned(st.at.found.value) else Thrown))
            && (st.at.LegacyDelete? && st.at.r.ForRestore? && st.at.found.None? ==> GoesOnAt(st, st', RestoreRecheck))
            && (st.at.LegacyDelete? && st.at.r.ForRestore? && st.at.found.Some? ==>
                  if e.expired then GoesOnAt(st, st', ClearMark(ByRestore))
                  else EndsWith(st, st', Returned(st.at.found.value)))
  {
  }

  // ---------------------------------------------------------------- recovery

  /** What an undisturbed restore knows at each point. */
  predicate Recovering(st: State) {
    match st.at
    case Idle => PendingKey !in st.store && st.log != []
      && (st.log[|st.log| - 1] == ReturnedNull || st.log[|st.log| - 1].Returned?)
                 && (st.log[|st.log| - 1] == ReturnedNull ==> !HasSession(st.store))
    case ReadMarker(r) => r.ForRestore?
    case ReadSession(r) => r.ForRestore? && PendingKey !in st.store
    case LegacyCheck(r, found) => r.ForRestore? && PendingKey !in st.store && (found.None? ==> !HasSession(st.store))
    case LegacyMark(r, found) => r.ForRestore? && (found.None? ==> !HasSession(st.store))
    case LegacyDelete(r, found, _, ok) => r.ForRestore? && ok && (found.None? ==> !HasSession(st.store))
    case LegacyUnmark(r, found) => r.ForRestore? && (found.None? ==> !HasSession(st.store))
    case RestoreRecheck => PendingKey in st.store || !HasSession(st.store)
    case ClearMark(c) => c in {ByRestore, InTry(ForRestore), InCatch(ForRestore)}
    case ClearDelete(c, _, ok) => ok && c in {ByRestore, InTry(ForRestore), InCatch(ForRestore)}
    case ClearUnmark(c) => c in {ByRestore, InTry(ForRestore), InCatch(ForRestore)}
    case _ => false
  }

  lemma RecoveringStep(st: State, e: Event)
    requires Inv(st) && Enabled(st, e) && Recovering(st) && !st.at.Idle? && e.Call? && e.ok
    ensures Recovering(Step(st, e))
  {
  }

  /** How many calls a restore has at most before it, if none is rejected. */
  function CallsLeft(at: Point): nat {
    var clearing := |CLEARED| + 3;
    var rechecking := clearing + 1;
    match at
    case ClearMark(c) => clearing + if c.ByRestore? then 0 else rechecking
    case ClearDelete(c, todo, _) => |todo| + 2 + if c.ByRestore? then 0 else rechecking
    case ClearUnmark(c) => 1 + if c.ByRestore? then 0 else rechecking
    case RestoreRecheck => rechecking
    case LegacyUnmark(_, _) => rechecking + 1
    case LegacyDelete(_, _, todo, _) => rechecking + 2 + |todo|
    case LegacyMark(_, _) => rechecking + 3 + |LEGACY|
    case LegacyCheck(_, _) => rechecking + 4 + |LEGACY|
    case ReadSession(_) => rechecking + 5 + clearing + |LEGACY|
    case ReadMarker(_) => rechecking + 6 + clearing + |LEGACY|
    case _ => 0
  }

  lemma CallsDecrease(st: State, e: Event)
    requires Enabled(st, e) && Recovering(st) && !st.at.Idle? && e.Call? && e.ok
    ensures CallsLeft(Step(st, e).at) < CallsLeft(st.at)
  {
    if st.at.ClearDelete? || st.at.LegacyDelete? {
      DeletesDecrease(st, e);
    } else if st.at.ClearMark? || st.at.ClearUnmark? {
      ClearsDecrease(st, e);
    } else {
      ReadsDecrease(st, e);
    }
  }

  lemma DeletesDecrease(st: State, e: Event)
    requires Enabled(st, e) && Recovering(st) && e.Call? && e.ok && (st.at.ClearDelete? || st.at.LegacyDelete?)
    ensures CallsLeft(Step(st, e).at) < CallsLeft(st.at)
  {
    hide CLEARED, LEGACY, Removed, HasSession;
    var todo := st.at.todo;
    if todo != {} { assert todo == (todo - {e.key}) + {e.key} && |todo - {e.key}| == |todo| - 1; }
  }

  lemma ClearsDecrease(st: State, e: Event)
    requires Enabled(st, e) && Recovering(st) && e.Call? && e.ok && (st.at.ClearMark? || st.at.ClearUnmark?)
    ensures CallsLeft(Step(st, e).at) < CallsLeft(st.at)
  {
    hide CLEARED, LEGACY, HasSession, HasLegacy, Written, Removed;
  }

  lemma ReadsDecrease(st: State, e: Event)
    requires Enabled(st, e) && Recovering(st) && !st.at.Idle? && e.Call? && e.ok
    requires !st.at.ClearDelete? && !st.at.LegacyDelete? && !st.at.ClearMark? && !st.at.ClearUnmark?
    ensures CallsLeft(Step(st, e).at) < CallsLeft(st.at)
  {
    hide CLEARED, LEGACY, HasSession, HasLegacy, Written, Removed;
  }

  /** A run of calls of which none is rejected. */
  predicate Undisturbed(es: seq<Event>) {
    forall i :: 0 <= i < |es| ==> es[i].Call? && es[i].ok
  }

  /**
   * Recovery: from any reachable store, whatever crash left it, a restore in which no call is rejected ends within the
   * calls counted above, without a marker, and either returns a session or leaves none.
   */
  lemma {:induction false} UndisturbedRestore(st: State, es: seq<Event>, st': State)
    requires Inv(st) && Runs(st, es, st') && Recovering(st) && !st.at.Idle? && Undisturbed(es)
    ensures Recovering(st')
    ensures |es| + CallsLeft(st'.at) <= CallsLeft(st.at) && (st'.at.Idle? || CallsLeft(st'.at) > 0)
    decreases |es|
  {
    hide Inv, Step, Recovering, CallsLeft;
    if es == [] {
      CallsAreLeft(st);
    } else {
      var mid := Step(st, es[0]);
      StepInv(st, es[0]);
      RecoveringStep(st, es[0]);
      CallsDecrease(st, es[0]);
      if mid.at.Idle? {
        IdleIsTheEnd(mid, es[1..], st');
      } else {
        UndisturbedRestore(mid, es[1..], st');
      }
    }
  }

  lemma IdleIsTheEnd(st: State, es: seq<Event>, st': State)
    requires st.at.Idle? && Runs(st, es, st') && Undisturbed(es)
    ensures es == []
  {
    hide Step;
  }

  lemma CallsAreLeft(st: State)
    requires Recovering(st) && !st.at.Idle?
    ensures CallsLeft(st.at) > 0
  {
  }

  /** An operation that has not ended has a call to make, and no event but a crash can take its place. */
  lemma NeverStuck(st: State)
    requires !st.at.Idle?
    ensures exists e: Event :: e.Call? && e.ok && Enabled(st, e)
    ensures forall e: Event :: Enabled(st, e) ==> e.Call? || e.Crash?
  {
    var key := PendingKey;
    if st.at.ClearDelete? || st.at.SaveDelete? || st.at.LegacyDelete? {
      if st.at.todo != {} { key :| key in st.at.todo; }
    }
    assert Enabled(st, Call(true, false, key, false));
  }
}
