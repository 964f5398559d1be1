/**
 * Refresh-token families: the pure decisions, and the requests and revocations of all endpoints over one table.
 */
module RefreshFamily {
  import opened Text

  /** A stored token; its id is its position in the table. Other grant fields are copied like `user`. */
  datatype Record = Record(
    family: nat,
    parent: Option<nat>,
    user: string,
    client: string,
    scope: string,
    jkt: Option<string>,
    revokedAt: Option<int>,
    familyRevokedAt: Option<int>,
    expiresAt: int,
    absoluteExpiresAt: int,
    createdAt: int)

  datatype Decision = Replay | Expired | ClientMismatch | DpopMismatch | Accepted

  function DetectReplay(rec: Record, client: string, now: int, presentedJkt: Option<string>): Decision {
    if rec.revokedAt.Some? then Replay
    else if now > rec.expiresAt || now > rec.absoluteExpiresAt then Expired
    else if rec.client != client then ClientMismatch
    else if rec.jkt.Some? && rec.jkt != presentedJkt then DpopMismatch
    else Accepted
  }

  function Words(scope: string): seq<string> { NonEmpty(Split(scope, ' ')) }

  /** The first requested word outside the grant, as the loop finds it. */
  function FirstOutside(requested: seq<string>, allowed: seq<string>): Option<string> {
    if requested == [] then None
    else if requested[0] !in allowed then Some(requested[0])
    else FirstOutside(requested[1..], allowed)
  }

  function NarrowScope(original: string, requested: Option<string>): Result<string, string> {
    if requested.None? || requested.value == "" then Ok(original)
    else
      var words := Words(requested.value);
      var outside := FirstOutside(words, Words(original));
      if outside.Some? then Err(outside.value) else Ok(Join(words, ' '))
  }

  predicate SubScope(a: string, b: string) {
    forall w :: w in Words(a) ==> w in Words(b)
  }

  lemma {:induction false} FirstOutsideExact(requested: seq<string>, allowed: seq<string>)
    ensures FirstOutside(requested, allowed).None? <==> forall w :: w in requested ==> w in allowed
    ensures FirstOutside(requested, allowed).Some? ==>
              FirstOutside(requested, allowed).value in requested && FirstOutside(requested, allowed).value !in allowed
  {
    if requested != [] {
      FirstOutsideExact(requested[1..], allowed);
      assert forall w :: w in requested <==> w == requested[0] || w in requested[1..];
    }
  }

  /** Joining the words of a scope keeps exactly those words, in order. */
  lemma WordsOfJoin(scope: string)
    ensures Words(Join(Words(scope), ' ')) == Words(scope)
  {
    var words := Words(scope);
    SplitPartsClean(scope, ' ');
    if words == [] {
      assert Split("", ' ') == [""];
    } else {
      assert forall i :: 0 <= i < |words| ==> words[i] in words;
      SplitOfJoin(words, ' ');
      AllKept(words);
    }
  }

  lemma {:induction false} AllKept(parts: seq<string>)
    requires forall p :: p in parts ==> p != ""
    ensures NonEmpty(parts) == parts
  {
    if parts != [] {
      assert parts[0] in parts && forall p :: p in parts[1..] ==> p in parts;
      AllKept(parts[1..]);
    }
  }

  /**
   * A request is granted iff every word of it was granted before; it then gets exactly those words, or the old scope
   * when it names none.
   */
  lemma NarrowScopeExact(original: string, requested: Option<string>)
    ensures NarrowScope(original, requested).Ok? <==>
              requested.None? || requested.value == "" || SubScope(requested.value, original)
    ensures NarrowScope(original, requested).Ok? ==>
              var granted := NarrowScope(original, requested).value;
              && SubScope(granted, original)
              && (if requested.None? || requested.value == "" then granted == original
                else Words(granted) == Words(requested.value))
  {
    if requested.Some? && requested.value != "" {
      FirstOutsideExact(Words(requested.value), Words(original));
      WordsOfJoin(requested.value);
    }
  }

  // ---------------------------------------------------------------- the statements

  /** `issueRefreshFamily`. */
  function FirstToken(family: nat, user: string, client: string, scope: string, jkt: Option<string>, now: int,
      idleTtl: int, absoluteTtl: int): Record {
    Record(family, None, user, client, scope, jkt, None, None, now + idleTtl, now + absoluteTtl, now)
  }

  /** `rotateRefresh`. */
  function Rotated(prev: Record, id: nat, scope: string, now: int, idleTtl: int): Record {
    Record(prev.family, Some(id), prev.user, prev.client, scope, prev.jkt, None, None, now + idleTtl,
      prev.absoluteExpiresAt, now)
  }

  predicate IsFenced(rows: seq<Record>, family: nat) {
    exists i :: 0 <= i < |rows| && rows[i].family == family && rows[i].familyRevokedAt.Some?
  }

  /** Revoke and fence the rows of a family that are not fenced yet. */
  function Fence(rows: seq<Record>, family: nat, now: int): (r: seq<Record>)
  {
    seq(|rows|, i requires 0 <= i < |rows| =>
      if rows[i].family == family && rows[i].familyRevokedAt.None?
      then rows[i].(revokedAt := Some(now), familyRevokedAt := Some(now))
      else rows[i])
  }

  /** The revocation endpoint stamps every row of the family but sets no fence. */
  function RevokeRows(rows: seq<Record>, family: nat, now: int): seq<Record> {
    seq(|rows|, i requires 0 <= i < |rows| =>
      if rows[i].family == family then rows[i].(revokedAt := Some(now)) else rows[i])
  }

  /** A grant of this user, and of this client if one is named. */
  predicate GrantOf(r: Record, user: string, client: Option<string>) {
    r.user == user && (client.None? || r.client == client.value)
  }

  /**
   * Revoking the credentials of a user, or of a user at one client, stamps and fences every such row not fenced yet.
   */
  function FenceGrantRows(rows: seq<Record>, user: string, client: Option<string>, now: int): seq<Record> {
    seq(|rows|, i requires 0 <= i < |rows| =>
      if GrantOf(rows[i], user, client) && rows[i].familyRevokedAt.None?
      then
        var at := if rows[i].revokedAt.Some? then rows[i].revokedAt else Some(now);
        rows[i].(revokedAt := at, familyRevokedAt := Some(now))
      else rows[i])
  }

  // ---------------------------------------------------------------- the token endpoint

  datatype Request = Request(token: nat, isPublic: bool, client: string, jkt: Option<string>, scope: Option<string>,
    now: int, idleTtl: int)

  /** Which statement a request runs next, or how it ended. */
  datatype Stage =
    | Fencing(family: nat)
    | Expiring(id: nat)
    | Swapping(id: nat, next: Record)
    | Inserting(id: nat, next: Record)
    | Inserted
    | Refused

  datatype Process = Process(request: Request, stage: Stage)

  datatype State = State(rows: seq<Record>, procs: seq<Process>)

  datatype Event =
    | Issue(family: nat, user: string, client: string, scope: string, jkt: Option<string>, now: int, idleTtl: int,
      absoluteTtl: int)
    | Present(request: Request)
    | Proceed(p: nat)
    | Fail(p: nat)                          // an error or a dead worker between two statements
    | FenceFamily(family: nat, now: int)    // replay of the authorization code
    | RevokeEndpoint(family: nat, now: int)
    | FenceGrants(user: string, onlyClient: Option<string>, now: int)

  /** Everything a request does with the row it read, up to its first write. */
  function Judge(rows: seq<Record>, rq: Request): Stage {
    if rq.token >= |rows| then Refused
    else
      var rec := rows[rq.token];
      if rq.isPublic && rec.jkt.None? then Refused
      else
        match DetectReplay(rec, rq.client, rq.now, rq.jkt)
        case Replay => Fencing(rec.family)
        case Expired => Expiring(rq.token)
        case ClientMismatch => Refused
        case DpopMismatch => Refused
        case Accepted =>
          match NarrowScope(rec.scope, rq.scope)
          case Err(_) => Refused
          case Ok(scope) => Swapping(rq.token, Rotated(rec, rq.token, scope, rq.now, rq.idleTtl))
  }

  function Revoked(rows: seq<Record>, id: nat, now: int): seq<Record>
    requires id < |rows|
  {
    rows[id := rows[id].(revokedAt := Some(now))]
  }

  function SetStage(st: State, p: nat, stage: Stage): seq<Process>
    requires p < |st.procs|
  {
    st.procs[p := st.procs[p].(stage := stage)]
  }

  function ProceedStep(st: State, p: nat): State
    requires p < |st.procs|
  {
    var now := st.procs[p].request.now;
    match st.procs[p].stage
    case Fencing(family) => State(Fence(st.rows, family, now), SetStage(st, p, Refused))
    case Expiring(id) => if id < |st.rows| then State(Revoked(st.rows, id, now), SetStage(st, p, Refused)) else st
    case Swapping(id, next) =>
      if id < |st.rows| && st.rows[id].revokedAt.None?
        then State(Revoked(st.rows, id, now), SetStage(st, p, Inserting(id, next)))
      else st.(procs := SetStage(st, p, Fencing(next.family)))
    case Inserting(_, next) =>
      if IsFenced(st.rows, next.family) then st.(procs := SetStage(st, p, Fencing(next.family)))
      else State(st.rows + [next], SetStage(st, p, Inserted))
    case _ => st
  }

  /** A new family gets an identifier no row carries. */
  predicate Enabled(st: State, e: Event) {
    match e
    case Issue(family, _, _, _, _, _, _, _) => forall i :: 0 <= i < |st.rows| ==> st.rows[i].family != family
    case Proceed(p) => p < |st.procs|
    case Fail(p) => p < |st.procs|
    case _ => true
  }

  function Step(st: State, e: Event): State
    requires Enabled(st, e)
  {
    match e
    case Issue(family, user, client, scope, jkt, now, idleTtl, absoluteTtl) =>
      st.(rows := st.rows + [FirstToken(family, user, client, scope, jkt, now, idleTtl, absoluteTtl)])
    case Present(rq) => st.(procs := st.procs + [Process(rq, Judge(st.rows, rq))])
    case Proceed(p) => ProceedStep(st, p)
    case Fail(p) => st.(procs := SetStage(st, p, Refused))
    case FenceFamily(family, now) => st.(rows := Fence(st.rows, family, now))
    case RevokeEndpoint(family, now) => st.(rows := RevokeRows(st.rows, family, now))
    case FenceGrants(user, client, now) => st.(rows := FenceGrantRows(st.rows, user, client, now))
  }

  predicate Runs(st: State, es: seq<Event>, st': State)
    decreases |es|
  {
    if es == [] then st == st' else Enabled(st, es[0]) && Runs(Step(st, es[0]), es[1..], st')
  }

  // ---------------------------------------------------------------- the invariant

  predicate Live(rows: seq<Record>, i: nat)
    requires i < |rows|
  {
    rows[i].revokedAt.None?
  }

  /** No later row belongs to the family of row i. */
  predicate Tip(rows: seq<Record>, i: nat)
    requires i < |rows|
  {
    forall k :: i < k < |rows| ==> rows[k].family != rows[i].family
  }

  /** What a rotation may change: only the scope, downwards, and the idle expiry. */
  predicate Inherits(child: Record, parent: Record) {
    && child.family == parent.family && child.user == parent.user && child.client == parent.client
    && child.jkt == parent.jkt && child.absoluteExpiresAt == parent.absoluteExpiresAt
    && SubScope(child.scope, parent.scope)
  }

  /** The parent is the family's previous row, and the first row of a family has none. */
  predicate Chained(rows: seq<Record>, j: nat)
    requires j < |rows|
  {
    match rows[j].parent
    case None => forall k :: 0 <= k < j ==> rows[k].family != rows[j].family
    case Some(i) => i < j && Inherits(rows[j], rows[i]) && forall k :: i < k < j ==> rows[k].family != rows[j].family
  }

  predicate RowOk(rows: seq<Record>, j: nat)
    requires j < |rows|
  {
    && Chained(rows, j)
    && (Live(rows, j) ==> Tip(rows, j) && !IsFenced(rows, rows[j].family))
  }

  predicate ProcessOk(rows: seq<Record>, s: Stage) {
    match s
    case Swapping(id, next) => id < |rows| && next.parent == Some(id) && Inherits(next, rows[id])
      && next.revokedAt.None? && next.familyRevokedAt.None?
    case Inserting(id, next) =>
      && id < |rows| && next.parent == Some(id) && Inherits(next, rows[id]) && next.revokedAt.None?
        && next.familyRevokedAt.None?
      && !Live(rows, id) && Tip(rows, id)
    case Expiring(id) => id < |rows|
    case _ => true
  }

  predicate Inv(st: State) {
    && (forall j {:trigger RowOk(st.rows, j)} :: 0 <= j < |st.rows| ==> RowOk(st.rows, j))
    && (forall p {:trigger ProcessOk(st.rows, st.procs[p].stage)} :: 0 <= p < |st.procs| ==>
      ProcessOk(st.rows, st.procs[p].stage))
    && (forall p, q :: 0 <= p < q < |st.procs| && st.procs[p].stage.Inserting? && st.procs[q].stage.Inserting? ==>
          st.procs[p].stage.id != st.procs[q].stage.id)
  }

  /** Statements that only revoke: same grants, and no revocation or fence is taken back. */
  predicate OnlyRevokes(rows: seq<Record>, rows': seq<Record>) {
    && |rows'| == |rows|
    && (forall i {:trigger rows'[i]} :: 0 <= i < |rows| ==>
          && rows'[i] == rows[i].(revokedAt := rows'[i].revokedAt, familyRevokedAt := rows'[i].familyRevokedAt)
          && (rows[i].revokedAt.Some? ==> rows'[i].revokedAt.Some?))
    && (forall i, j ::
          0 <= i < |rows| && 0 <= j < |rows| && rows[i].family == rows[j].family && rows'[j].revokedAt.None? ==>
            rows'[i].familyRevokedAt == rows[i].familyRevokedAt)
  }

  lemma FenceOnlyRevokes(rows: seq<Record>, family: nat, now: int)
    requires forall j {:trigger RowOk(rows, j)} :: 0 <= j < |rows| ==> RowOk(rows, j)
    ensures OnlyRevokes(rows, Fence(rows, family, now))
    ensures forall j :: 0 <= j < |rows| && rows[j].family == family ==> !Live(Fence(rows, family, now), j)
  {
    forall j | 0 <= j < |rows| && rows[j].family == family
      ensures !Live(Fence(rows, family, now), j)
    {
      assert RowOk(rows, j);
    }
  }

  lemma RevokingRow(rows: seq<Record>, rows': seq<Record>, j: nat)
    requires OnlyRevokes(rows, rows') && j < |rows| && RowOk(rows, j)
    ensures RowOk(rows', j)
  {
  }

  lemma RevokingKeeps(rows: seq<Record>, rows': seq<Record>, procs: seq<Process>)
    requires Inv(State(rows, procs)) && OnlyRevokes(rows, rows')
    ensures Inv(State(rows', procs))
  {
    forall j | 0 <= j < |rows'|
      ensures RowOk(rows', j)
    {
      assert RowOk(rows, j);
      RevokingRow(rows, rows', j);
    }
    forall p | 0 <= p < |procs|
      ensures ProcessOk(rows', procs[p].stage)
    {
      assert ProcessOk(rows, procs[p].stage);
    }
  }

  /** A stage that inserts nothing may replace any other. */
  lemma StageKeeps(st: State, p: nat, stage: Stage)
    requires Inv(st) && p < |st.procs| && ProcessOk(st.rows, stage) && !stage.Inserting?
    ensures Inv(st.(procs := SetStage(st, p, stage)))
  {
    var procs := SetStage(st, p, stage);
    forall q | 0 <= q < |procs|
      ensures ProcessOk(st.rows, procs[q].stage)
    {
      assert ProcessOk(st.rows, st.procs[q].stage);
    }
  }

  lemma JudgeOk(rows: seq<Record>, rq: Request)
    ensures ProcessOk(rows, Judge(rows, rq)) && !Judge(rows, rq).Inserting?
  {
    if rq.token < |rows| {
      NarrowScopeExact(rows[rq.token].scope, rq.scope);
    }
  }

  /** The conditional revoke that matched leaves its process as the only one about to insert in the family. */
  lemma SwapKeeps(st: State, p: nat)
    requires Inv(st) && p < |st.procs| && st.procs[p].stage.Swapping?
    requires st.procs[p].stage.id < |st.rows| && Live(st.rows, st.procs[p].stage.id)
    ensures Inv(ProceedStep(st, p))
  {
    var Swapping(id, next) := st.procs[p].stage;
    assert ProcessOk(st.rows, st.procs[p].stage) && RowOk(st.rows, id);
    var rows' := Revoked(st.rows, id, st.procs[p].request.now);
    RevokingKeeps(st.rows, rows', st.procs);
    var st' := ProceedStep(st, p);
    forall q | 0 <= q < |st'.procs|
      ensures ProcessOk(st'.rows, st'.procs[q].stage)
    {
      assert ProcessOk(rows', st.procs[q].stage);
    }
    forall q | 0 <= q < |st.procs| && st.procs[q].stage.Inserting?
      ensures st.procs[q].stage.id != id
    {
      assert ProcessOk(st.rows, st.procs[q].stage);
    }
  }

  lemma AppendedRow(rows: seq<Record>, next: Record, j: nat)
    requires j < |rows| && RowOk(rows, j) && (Live(rows, j) ==> rows[j].family != next.family)
               && next.familyRevokedAt.None?
    ensures RowOk(rows + [next], j)
  {
  }

  lemma AppendKeeps(st: State, next: Record)
    requires Inv(st) && RowOk(st.rows + [next], |st.rows|) && next.familyRevokedAt.None?
    requires forall j :: 0 <= j < |st.rows| && Live(st.rows, j) ==> st.rows[j].family != next.family
    requires forall p :: 0 <= p < |st.procs| && st.procs[p].stage.Inserting? ==>
               st.procs[p].stage.next.family != next.family
    ensures Inv(st.(rows := st.rows + [next]))
  {
    var rows' := st.rows + [next];
    forall j | 0 <= j < |rows'|
      ensures RowOk(rows', j)
    {
      if j < |st.rows| {
        assert RowOk(st.rows, j);
        AppendedRow(st.rows, next, j);
      }
    }
    forall p | 0 <= p < |st.procs|
      ensures ProcessOk(rows', st.procs[p].stage)
    {
      assert ProcessOk(st.rows, st.procs[p].stage);
    }
  }

  /** The guarded insert extends the family's chain at its tip. */
  lemma InsertKeeps(st: State, p: nat)
    requires Inv(st) && p < |st.procs| && st.procs[p].stage.Inserting?
    requires !IsFenced(st.rows, st.procs[p].stage.next.family)
    ensures Inv(ProceedStep(st, p))
  {
    var Inserting(id, next) := st.procs[p].stage;
    assert ProcessOk(st.rows, st.procs[p].stage);
    var done := st.(procs := SetStage(st, p, Inserted));
    StageKeeps(st, p, Inserted);
    forall j | 0 <= j < |st.rows| && Live(st.rows, j)
      ensures st.rows[j].family != next.family
    {
      assert RowOk(st.rows, j);
    }
    forall q | 0 <= q < |done.procs| && done.procs[q].stage.Inserting?
      ensures done.procs[q].stage.next.family != next.family
    {
      assert ProcessOk(st.rows, st.procs[q].stage);
      assert st.procs[q].stage.id != id;
    }
    AppendKeeps(done, next);
  }

  lemma IssueKeeps(st: State, first: Record)
    requires Inv(st) && first.parent.None? && first.revokedAt.None? && first.familyRevokedAt.None?
    requires forall i :: 0 <= i < |st.rows| ==> st.rows[i].family != first.family
    ensures Inv(st.(rows := st.rows + [first]))
  {
    forall p | 0 <= p < |st.procs| && st.procs[p].stage.Inserting?
      ensures st.procs[p].stage.next.family != first.family
    {
      assert ProcessOk(st.rows, st.procs[p].stage);
    }
    AppendKeeps(st, first);
  }

  lemma ProceedKeeps(st: State, p: nat)
    requires Inv(st) && p < |st.procs|
    ensures Inv(ProceedStep(st, p))
  {
    assert ProcessOk(st.rows, st.procs[p].stage);
    match st.procs[p].stage {
      case Fencing(family) =>
        StageKeeps(st, p, Refused);
        FenceOnlyRevokes(st.rows, family, st.procs[p].request.now);
        RevokingKeeps(st.rows, Fence(st.rows, family, st.procs[p].request.now), SetStage(st, p, Refused));
      case Expiring(id) =>
        StageKeeps(st, p, Refused);
        RevokingKeeps(st.rows, Revoked(st.rows, id, st.procs[p].request.now), SetStage(st, p, Refused));
      case Swapping(id, next) =>
        if Live(st.rows, id) { SwapKeeps(st, p); } else { StageKeeps(st, p, Fencing(next.family)); }
      case Inserting(id, next) =>
        if IsFenced(st.rows, next.family) { StageKeeps(st, p, Fencing(next.family)); } else { InsertKeeps(st, p); }
      case _ =>
    }
  }

  /** Reached by following parents. */
  predicate DescendsFrom(rows: seq<Record>, j: nat, i: nat)
    requires j < |rows|
    decreases j
  {
    i == j || (rows[j].parent.Some? && rows[j].parent.value < j && DescendsFrom(rows, rows[j].parent.value, i))
  }

  lemma {:induction false} Descends(st: State, j: nat, i: nat)
    requires Inv(st) && i <= j < |st.rows| && st.rows[i].family == st.rows[j].family
    ensures DescendsFrom(st.rows, j, i) && Inherits(st.rows[j], st.rows[i])
    decreases j
  {
    if i < j {
      assert RowOk(st.rows, j);
      Descends(st, st.rows[j].parent.value, i);
    }
  }

  /** The rows of a family belong to one user and client, so this fences whole families. */
  lemma GrantFenceOnlyRevokes(st: State, user: string, client: Option<string>, now: int)
    requires Inv(st)
    ensures OnlyRevokes(st.rows, FenceGrantRows(st.rows, user, client, now))
  {
    hide SubScope, DescendsFrom;
    var rows, rows' := st.rows, FenceGrantRows(st.rows, user, client, now);
    forall i, j | 0 <= i < |rows| && 0 <= j < |rows| && rows[i].family == rows[j].family && rows'[j].revokedAt.None?
      ensures rows'[i].familyRevokedAt == rows[i].familyRevokedAt
    {
      assert RowOk(rows, j);
      if i <= j { Descends(st, j, i); } else { Descends(st, i, j); }
    }
  }

  lemma StepKeeps(st: State, e: Event)
    requires Inv(st) && Enabled(st, e)
    ensures Inv(Step(st, e))
  {
    match e {
      case Issue(family, user, client, scope, jkt, now, idleTtl, absoluteTtl) =>
        IssueKeeps(st, FirstToken(family, user, client, scope, jkt, now, idleTtl, absoluteTtl));
      case Present(rq) =>
        JudgeOk(st.rows, rq);
        var procs := st.procs + [Process(rq, Judge(st.rows, rq))];
        forall q | 0 <= q < |procs|
          ensures ProcessOk(st.rows, procs[q].stage)
        {
          assert q < |st.procs| ==> ProcessOk(st.rows, st.procs[q].stage);
        }
      case Proceed(p) => ProceedKeeps(st, p);
      case Fail(p) => StageKeeps(st, p, Refused);
      case FenceFamily(family, now) =>
        FenceOnlyRevokes(st.rows, family, now);
        RevokingKeeps(st.rows, Fence(st.rows, family, now), st.procs);
      case RevokeEndpoint(family, now) => RevokingKeeps(st.rows, RevokeRows(st.rows, family, now), st.procs);
      case FenceGrants(user, client, now) =>
        GrantFenceOnlyRevokes(st, user, client, now);
        RevokingKeeps(st.rows, FenceGrantRows(st.rows, user, client, now), st.procs);
    }
  }

  // ---------------------------------------------------------------- over whole runs

  /** What no statement ever changes in a stored row. */
  predicate Kept(rows: seq<Record>, rows': seq<Record>) {
    && |rows| <= |rows'|
    && (forall i {:trigger rows'[i]} :: 0 <= i < |rows| ==>
          && rows'[i] == rows[i].(revokedAt := rows'[i].revokedAt, familyRevokedAt := rows'[i].familyRevokedAt)
          && (rows[i].revokedAt.Some? ==> rows'[i].revokedAt.Some?)
          && (rows[i].familyRevokedAt.Some? ==> rows'[i].familyRevokedAt.Some?))
  }

  lemma StepKept(st: State, e: Event)
    requires Enabled(st, e)
    ensures Kept(st.rows, Step(st, e).rows) && |st.procs| <= |Step(st, e).procs|
  {
  }

  lemma {:induction false} RunKeeps(st: State, es: seq<Event>, st': State)
    requires Inv(st) && Runs(st, es, st')
    ensures Inv(st') && Kept(st.rows, st'.rows) && |st.procs| <= |st'.procs|
    decreases |es|
  {
    hide Inv, Step, Enabled, RowOk;
    if es != [] {
      assert Enabled(st, es[0]);
      StepKeeps(st, es[0]);
      StepKept(st, es[0]);
      RunKeeps(Step(st, es[0]), es[1..], st');
    }
  }

  function Init(): State { State([], []) }

  /** However requests interleave, a family has at most one token that works or is about to be stored. */
  lemma OneLiveToken(es: seq<Event>, st: State, i: nat, j: nat, p: nat, q: nat)
    requires Runs(Init(), es, st)
    ensures i < j < |st.rows| && st.rows[i].family == st.rows[j].family ==> !Live(st.rows, i)
    ensures i < |st.rows| && p < |st.procs| && st.procs[p].stage.Inserting?
              && st.procs[p].stage.next.family == st.rows[i].family ==>
              !Live(st.rows, i)
    ensures p < q < |st.procs| && st.procs[p].stage.Inserting? && st.procs[q].stage.Inserting? ==>
              st.procs[p].stage.next.family != st.procs[q].stage.next.family
  {
    RunKeeps(Init(), es, st);
    assert i < |st.rows| ==> RowOk(st.rows, i);
    assert p < |st.procs| ==> ProcessOk(st.rows, st.procs[p].stage);
    assert q < |st.procs| ==> ProcessOk(st.rows, st.procs[q].stage);
  }

  /** A family is one chain of parents along which scopes only shrink and every other grant field stays. */
  lemma FamilyIsOneChain(es: seq<Event>, st: State, j: nat, i: nat)
    requires Runs(Init(), es, st) && i <= j < |st.rows| && st.rows[i].family == st.rows[j].family
    ensures DescendsFrom(st.rows, j, i) && Inherits(st.rows[j], st.rows[i])
    ensures i < j ==> st.rows[j].parent.Some? && st.rows[j].parent != st.rows[i].parent
  {
    RunKeeps(Init(), es, st);
    Descends(st, j, i);
    assert RowOk(st.rows, j) && RowOk(st.rows, i);
  }

  lemma IssuedFromHere(st0: State, issue: Event, rows: seq<Record>, i: nat)
    requires issue.Issue? && Enabled(st0, issue) && Kept(Step(st0, issue).rows, rows)
    requires i < |rows| && rows[i].family == issue.family
    ensures i >= |st0.rows|
  {
    assert Step(st0, issue).rows[..|st0.rows|] == st0.rows;
  }

  /**
   * Whatever happened in between, a token is accepted only for the grant first issued to its family and until its
   * absolute expiry.
   */
  lemma AcceptedWithinFirstGrant(before: seq<Event>, st0: State, issue: Event, after: seq<Event>, st: State,
      rq: Request)
    requires Runs(Init(), before, st0) && issue.Issue? && Enabled(st0, issue) && Runs(Step(st0, issue), after, st)
    requires rq.token < |st.rows| && st.rows[rq.token].family == issue.family
    requires Judge(st.rows, rq).Swapping?
    ensures rq.now <= issue.now + issue.absoluteTtl
    ensures rq.client == issue.client && (issue.jkt.Some? ==> rq.jkt == issue.jkt)
    ensures Judge(st.rows, rq).next.jkt == issue.jkt
              && Judge(st.rows, rq).next.absoluteExpiresAt == issue.now + issue.absoluteTtl
    ensures SubScope(Judge(st.rows, rq).next.scope, issue.scope)
  {
    var st1 := Step(st0, issue);
    RunKeeps(Init(), before, st0);
    StepKeeps(st0, issue);
    RunKeeps(st1, after, st);
    var root := |st0.rows|;
    assert st1.rows[root]
      == FirstToken(issue.family, issue.user, issue.client, issue.scope, issue.jkt, issue.now, issue.idleTtl,
        issue.absoluteTtl);
    IssuedFromHere(st0, issue, st.rows, rq.token);
    Descends(st, rq.token, root);
    JudgeOk(st.rows, rq);
    assert Inherits(st.rows[rq.token], st.rows[root]);
  }

  // ---------------------------------------------------------------- what is revoked

  /**
   * What each revoking statement does to each row. A replay fences the rows of its family that are not fenced yet; the
   * revocation endpoint stamps those of its family without a fence; revoking the grants of a user, or of a user at one
   * client, fences theirs and keeps an older stamp. No other row changes.
   */
  lemma RevocationOutcome(st: State, e: Event, i: nat)
    requires Enabled(st, e) && i < |st.rows| && (e.FenceFamily? || e.RevokeEndpoint? || e.FenceGrants?)
    ensures var (r, rows') := (st.rows[i], Step(st, e).rows);
            && |rows'| == |st.rows| && Step(st, e).procs == st.procs
            && (e.FenceFamily? ==>
                  rows'[i] == if r.family == e.family && r.familyRevokedAt.None?
                              then r.(revokedAt := Some(e.now), familyRevokedAt := Some(e.now)) else r)
            && (e.RevokeEndpoint? ==>
                  rows'[i] == if r.family == e.family then r.(revokedAt := Some(e.now)) else r)
            && (e.FenceGrants? ==>
                  var hit := r.user == e.user && (e.onlyClient.None? || r.client == e.onlyClient.value)
                             && r.familyRevokedAt.None?;
                  && (!hit ==> rows'[i] == r)
                  && (hit ==>
                        && rows'[i] == r.(revokedAt := rows'[i].revokedAt, familyRevokedAt := Some(e.now))
                        && rows'[i].revokedAt == if r.revokedAt.Some? then r.revokedAt else Some(e.now)))
  {
  }

  // ---------------------------------------------------------------- what is accepted, and when

  /** The requested words, or no request for narrowing, lie within the grant. */
  predicate Narrows(requested: Option<string>, granted: string) {
    requested.None? || requested.value == "" || SubScope(requested.value, granted)
  }

  /** Presented in time and by its owner. */
  predicate Presentable(rec: Record, rq: Request) {
    && rq.now <= rec.expiresAt && rq.now <= rec.absoluteExpiresAt
    && rq.client == rec.client && (rec.jkt.None? || rq.jkt == rec.jkt)
  }

  /** What a presentation leads to, for every table and request. */
  lemma JudgeOutcome(rows: seq<Record>, rq: Request)
    ensures var found := rq.token < |rows| && !(rq.isPublic && rows[rq.token].jkt.None?);
            var stage := Judge(rows, rq);
            && (!found ==> stage == Refused)
            && (found ==>
                  var rec := rows[rq.token];
                  && (rec.revokedAt.Some? ==> stage == Fencing(rec.family))
                  && (rec.revokedAt.None? ==>
                        && (rq.now > rec.expiresAt || rq.now > rec.absoluteExpiresAt ==> stage == Expiring(rq.token))
                        && (stage.Swapping? <==> Presentable(rec, rq) && Narrows(rq.scope, rec.scope))
                        && (rq.now <= rec.expiresAt && rq.now <= rec.absoluteExpiresAt && !stage.Swapping? ==>
                              stage == Refused)))
    ensures Judge(rows, rq).Swapping? ==>
              var rec, next := rows[rq.token], Judge(rows, rq).next;
              && Judge(rows, rq).id == rq.token && next.parent == Some(rq.token)
              && next.createdAt == rq.now && next.expiresAt == rq.now + rq.idleTtl
              && next.absoluteExpiresAt == rec.absoluteExpiresAt && next.client == rec.client && next.jkt == rec.jkt
              && next.revokedAt.None? && next.familyRevokedAt.None? && next.family == rec.family
                && next.user == rec.user
              && (if rq.scope.None? || rq.scope.value == "" then next.scope == rec.scope
                  else Words(next.scope) == Words(rq.scope.value))
  {
    if rq.token < |rows| { NarrowScopeExact(rows[rq.token].scope, rq.scope); }
  }

  /** What issuing a family stores: one row with everything the grant says. */
  lemma IssueOutcome(st: State, e: Event)
    requires e.Issue? && Enabled(st, e)
    ensures var st' := Step(st, e);
            && st'.procs == st.procs && |st'.rows| == |st.rows| + 1 && st'.rows[..|st.rows|] == st.rows
            && var r := st'.rows[|st.rows|];
               && r.family == e.family && r.parent.None? && r.user == e.user && r.client == e.client
               && r.scope == e.scope && r.jkt == e.jkt && r.revokedAt.None? && r.familyRevokedAt.None?
               && r.createdAt == e.now && r.expiresAt == e.now + e.idleTtl
               && r.absoluteExpiresAt == e.now + e.absoluteTtl
  {
  }

  /** A process between its reads and its insert carries the row its own request asks for. */
  predicate PlanOk(rows: seq<Record>, pr: Process) {
    pr.stage.Swapping? || pr.stage.Inserting? ==>
      var rq, next := pr.request, pr.stage.next;
      && rq.token < |rows|
      && next.createdAt == rq.now && next.expiresAt == rq.now + rq.idleTtl
      && next.absoluteExpiresAt == rows[rq.token].absoluteExpiresAt
      && next.client == rows[rq.token].client && next.jkt == rows[rq.token].jkt
      && (if rq.scope.None? || rq.scope.value == "" then next.scope == rows[rq.token].scope
          else Words(next.scope) == Words(rq.scope.value))
  }

  predicate PlansOk(st: State) {
    forall p {:trigger PlanOk(st.rows, st.procs[p])} :: 0 <= p < |st.procs| ==> PlanOk(st.rows, st.procs[p])
  }

  lemma StepPlans(st: State, e: Event)
    requires PlansOk(st) && Enabled(st, e)
    ensures PlansOk(Step(st, e))
  {
    var st' := Step(st, e);
    StepKept(st, e);
    if e.Present? { JudgeOutcome(st.rows, e.request); }
    hide Words, Judge, Fence, RevokeRows, FenceGrantRows;
    forall p | 0 <= p < |st'.procs|
      ensures PlanOk(st'.rows, st'.procs[p])
    {
      assert p < |st.procs| ==> PlanOk(st.rows, st.procs[p]);
    }
  }

  lemma {:induction false} RunPlans(st: State, es: seq<Event>, st': State)
    requires PlansOk(st) && Runs(st, es, st')
    ensures PlansOk(st')
    decreases |es|
  {
    hide PlansOk, Step, Enabled;
    if es != [] {
      StepPlans(st, es[0]);
      RunPlans(Step(st, es[0]), es[1..], st');
    }
  }

  /**
   * The first token of a family, whatever happened since it was issued: it is accepted iff it is not revoked and is
   * presented within its idle time and the absolute lifetime, by the client and key it was issued to, for a scope that
   * it was issued for, and bound if the client is public.
   */
  lemma IssuedAcceptedIff(before: seq<Event>, st0: State, issue: Event, after: seq<Event>, st: State, rq: Request)
    requires Runs(Init(), before, st0) && issue.Issue? && Enabled(st0, issue) && Runs(Step(st0, issue), after, st)
    requires rq.token == |st0.rows|
    ensures rq.token < |st.rows|
    ensures Judge(st.rows, rq).Swapping? <==>
              && st.rows[rq.token].revokedAt.None?
              && rq.now <= issue.now + issue.idleTtl && rq.now <= issue.now + issue.absoluteTtl
              && rq.client == issue.client && (issue.jkt.Some? ==> rq.jkt == issue.jkt)
              && !(rq.isPublic && issue.jkt.None?)
              && Narrows(rq.scope, issue.scope)
  {
    var st1 := Step(st0, issue);
    RunKeeps(Init(), before, st0);
    StepKeeps(st0, issue);
    RunKeeps(st1, after, st);
    assert st1.rows[rq.token].expiresAt == issue.now + issue.idleTtl;
    assert st.rows[rq.token].expiresAt == st1.rows[rq.token].expiresAt;
    JudgeOutcome(st.rows, rq);
  }

  /**
   * A token that a rotation stored, whatever happened since: likewise, with the idle time and the scope of the request
   * that rotated, and the absolute lifetime, client and key of the token it rotated.
   */
  lemma RotatedAcceptedIff(before: seq<Event>, st0: State, p: nat, after: seq<Event>, st: State, rq: Request)
    requires Runs(Init(), before, st0) && p < |st0.procs| && st0.procs[p].stage.Inserting?
    requires |ProceedStep(st0, p).rows| > |st0.rows| && Runs(ProceedStep(st0, p), after, st)
    requires rq.token == |st0.rows|
    ensures rq.token < |st.rows| && st0.procs[p].request.token < |st0.rows|
    ensures var from := st0.procs[p].request;
            var rotated := st0.rows[from.token];
            Judge(st.rows, rq).Swapping? <==>
              && st.rows[rq.token].revokedAt.None?
              && rq.now <= from.now + from.idleTtl && rq.now <= rotated.absoluteExpiresAt
              && rq.client == rotated.client && (rotated.jkt.Some? ==> rq.jkt == rotated.jkt)
              && !(rq.isPublic && rotated.jkt.None?)
              && Narrows(rq.scope, if from.scope.None? || from.scope.value == "" then rotated.scope
                else from.scope.value)
  {
    var st1 := ProceedStep(st0, p);
    RunKeeps(Init(), before, st0);
    RunPlans(Init(), before, st0);
    assert PlanOk(st0.rows, st0.procs[p]);
    ProceedKeeps(st0, p);
    RunKeeps(st1, after, st);
    assert st1.rows[rq.token] == st0.procs[p].stage.next;
    JudgeOutcome(st.rows, rq);
  }

  /** A presentation after the idle time or the absolute lifetime ends with the token revoked for good. */
  lemma ExpiredIsRevoked(before: seq<Event>, st0: State, rq: Request, mid: seq<Event>, st1: State,
                         after: seq<Event>, st: State, later: Request)
    requires Runs(Init(), before, st0) && rq.token < |st0.rows| && !(rq.isPublic && st0.rows[rq.token].jkt.None?)
    requires st0.rows[rq.token].revokedAt.None?
    requires rq.now > st0.rows[rq.token].expiresAt || rq.now > st0.rows[rq.token].absoluteExpiresAt
    requires Runs(Step(st0, Present(rq)), mid, st1) && |st0.procs| < |st1.procs|
    requires st1.procs[|st0.procs|].stage == Step(st0, Present(rq)).procs[|st0.procs|].stage
    requires Runs(ProceedStep(st1, |st0.procs|), after, st) && later.token == rq.token
    ensures rq.token < |st.rows| && st.rows[rq.token].revokedAt.Some? && !Judge(st.rows, later).Swapping?
  {
    JudgeOutcome(st0.rows, rq);
    RunKeeps(Init(), before, st0);
    StepKeeps(st0, Present(rq));
    RunKeeps(Step(st0, Present(rq)), mid, st1);
    ProceedKeeps(st1, |st0.procs|);
    RunKeeps(ProceedStep(st1, |st0.procs|), after, st);
    JudgeOutcome(st.rows, later);
  }

  /** Presented alone, an accepted token is revoked and replaced by one live successor with the narrowed scope. */
  lemma LoneRotation(st: State, rq: Request)
    requires Inv(st) && Judge(st.rows, rq).Swapping?
    ensures var p := |st.procs|;
            var st1 := Step(st, Present(rq));
            var st2 := ProceedStep(st1, p);
            var st3 := ProceedStep(st2, p);
            var next := Judge(st.rows, rq).next;
            && st3.rows == Revoked(st.rows, rq.token, rq.now) + [next]
            && Live(st3.rows, |st.rows|) && next.parent == Some(rq.token)
            && NarrowScope(st.rows[rq.token].scope, rq.scope) == Ok(next.scope)
  {
    assert RowOk(st.rows, rq.token);
    var rows := Revoked(st.rows, rq.token, rq.now);
    assert forall i :: 0 <= i < |rows| ==>
      rows[i].family == st.rows[i].family && rows[i].familyRevokedAt == st.rows[i].familyRevokedAt;
    assert !IsFenced(rows, st.rows[rq.token].family);
  }

  // ---------------------------------------------------------------- dead families

  /** No row of the family works, and no process may still store one. */
  predicate Dead(st: State, family: nat) {
    && (exists i :: 0 <= i < |st.rows| && st.rows[i].family == family)
    && (forall i :: 0 <= i < |st.rows| && st.rows[i].family == family ==> !Live(st.rows, i))
    && (IsFenced(st.rows, family)
        || forall p :: 0 <= p < |st.procs| && st.procs[p].stage.Inserting? ==> st.procs[p].stage.next.family != family)
  }

  lemma ProceedStaysDead(st: State, p: nat, family: nat)
    requires Inv(st) && p < |st.procs| && Dead(st, family)
    ensures Dead(ProceedStep(st, p), family)
    ensures forall k :: |st.rows| <= k < |ProceedStep(st, p).rows| ==> ProceedStep(st, p).rows[k].family != family
  {
    var st' := ProceedStep(st, p);
    assert ProcessOk(st.rows, st.procs[p].stage);
    assert Kept(st.rows, st'.rows) by { StepKept(st, Proceed(p)); }
    var i :| 0 <= i < |st.rows| && st.rows[i].family == family;
    assert st'.rows[i].family == family;
    if IsFenced(st.rows, family) {
      var k :| 0 <= k < |st.rows| && st.rows[k].family == family && st.rows[k].familyRevokedAt.Some?;
      assert st'.rows[k].family == family && st'.rows[k].familyRevokedAt.Some?;
      assert IsFenced(st'.rows, family);
    }
  }

  lemma StepStaysDead(st: State, e: Event, family: nat)
    requires Inv(st) && Enabled(st, e) && Dead(st, family)
    ensures Dead(Step(st, e), family)
    ensures forall k :: |st.rows| <= k < |Step(st, e).rows| ==> Step(st, e).rows[k].family != family
  {
    var st' := Step(st, e);
    if e.Proceed? {
      ProceedStaysDead(st, e.p, family);
    } else {
      StepKept(st, e);
      if e.Present? { JudgeOk(st.rows, e.request); }
      var i :| 0 <= i < |st.rows| && st.rows[i].family == family;
      assert st'.rows[i].family == family;
      if IsFenced(st.rows, family) {
        var k :| 0 <= k < |st.rows| && st.rows[k].family == family && st.rows[k].familyRevokedAt.Some?;
        assert st'.rows[k].family == family && st'.rows[k].familyRevokedAt.Some?;
        assert IsFenced(st'.rows, family);
      }
    }
  }

  lemma {:induction false} RunStaysDead(st: State, es: seq<Event>, st': State, family: nat)
    requires Inv(st) && Runs(st, es, st') && Dead(st, family)
    ensures Inv(st') && Dead(st', family)
    ensures |st.rows| <= |st'.rows| && forall k :: |st.rows| <= k < |st'.rows| ==> st'.rows[k].family != family
    decreases |es|
  {
    hide Inv, Step, Enabled, Dead;
    if es != [] {
      assert Enabled(st, es[0]);
      StepKeeps(st, es[0]);
      StepKept(st, es[0]);
      StepStaysDead(st, es[0], family);
      var mid := Step(st, es[0]);
      RunStaysDead(mid, es[1..], st', family);
      RunKeeps(mid, es[1..], st');
      assert forall k :: |st.rows| <= k < |mid.rows| ==> st'.rows[k].family == mid.rows[k].family;
    }
  }

  lemma FencedIsDead(st: State, family: nat)
    requires Inv(st) && IsFenced(st.rows, family)
    ensures Dead(st, family)
  {
    forall i | 0 <= i < |st.rows| && st.rows[i].family == family
      ensures !Live(st.rows, i)
    {
      assert RowOk(st.rows, i);
    }
  }

  /**
   * Once the fence a replay asks for is written, whatever other requests were doing, the family never works again and
   * never grows.
   */
  lemma ReplayKillsFamily(before: seq<Event>, st: State, rq: Request, mid: seq<Event>, st2: State, after: seq<Event>,
      st': State)
    requires Runs(Init(), before, st) && rq.token < |st.rows| && !Live(st.rows, rq.token)
    requires !(rq.isPublic && st.rows[rq.token].jkt.None?)
    requires Runs(Step(st, Present(rq)), mid, st2) && |st.procs| < |st2.procs|
    requires st2.procs[|st.procs|].stage == Judge(st.rows, rq)
    requires Runs(ProceedStep(st2, |st.procs|), after, st')
    ensures Dead(st', st.rows[rq.token].family)
    ensures |st2.rows| <= |st'.rows|
    ensures forall k :: |st2.rows| <= k < |st'.rows| ==> st'.rows[k].family != st.rows[rq.token].family
  {
    var family := st.rows[rq.token].family;
    var st1 := Step(st, Present(rq));
    RunKeeps(Init(), before, st);
    StepKeeps(st, Present(rq));
    RunKeeps(st1, mid, st2);
    assert st2.rows[rq.token].family == family;
    FenceDone(st2, |st.procs|, rq.token);
    var st3 := ProceedStep(st2, |st.procs|);
    ProceedKeeps(st2, |st.procs|);
    FencedIsDead(st3, family);
    RunStaysDead(st3, after, st', family);
  }

  /** Once a user's grants are revoked none of their families ever works or grows again, whatever was in flight. */
  lemma GrantsEndForGood(before: seq<Event>, st: State, user: string, client: Option<string>, now: int,
                         after: seq<Event>, st': State, i: nat)
    requires Runs(Init(), before, st) && i < |st.rows| && GrantOf(st.rows[i], user, client)
    requires Runs(Step(st, FenceGrants(user, client, now)), after, st')
    ensures Dead(st', st.rows[i].family)
    ensures |st.rows| <= |st'.rows|
    ensures forall k :: |st.rows| <= k < |st'.rows| ==> st'.rows[k].family != st.rows[i].family
  {
    var family := st.rows[i].family;
    var e := FenceGrants(user, client, now);
    RunKeeps(Init(), before, st);
    StepKeeps(st, e);
    var st1 := Step(st, e);
    assert st1.rows[i].family == family && st1.rows[i].familyRevokedAt.Some?;
    FencedIsDead(st1, family);
    RunStaysDead(st1, after, st', family);
  }

  lemma FenceDone(st: State, p: nat, i: nat)
    requires p < |st.procs| && i < |st.rows| && st.procs[p].stage == Fencing(st.rows[i].family)
    ensures IsFenced(ProceedStep(st, p).rows, st.rows[i].family) && |ProceedStep(st, p).rows| == |st.rows|
  {
    var rows := Fence(st.rows, st.rows[i].family, st.procs[p].request.now);
    assert rows[i].family == st.rows[i].family && rows[i].familyRevokedAt.Some?;
  }

  /** Of two requests accepted with one token the second to revoke it fences the family instead. */
  lemma SecondSpendFences(st: State, p: nat)
    requires Inv(st) && p < |st.procs| && st.procs[p].stage.Swapping?
    requires st.procs[p].stage.id < |st.rows| && !Live(st.rows, st.procs[p].stage.id)
    ensures var st' := ProceedStep(ProceedStep(st, p), p);
            IsFenced(st'.rows, st.rows[st.procs[p].stage.id].family) && st'.procs[p].stage == Refused
  {
    assert ProcessOk(st.rows, st.procs[p].stage);
    FenceDone(ProceedStep(st, p), p, st.procs[p].stage.id);
  }

  /** A rotation that finds its family fenced when it comes to insert stores nothing, and its request is refused. */
  lemma FencedInsertIsRefused(st: State, p: nat)
    requires Inv(st) && p < |st.procs| && st.procs[p].stage.Inserting?
               && IsFenced(st.rows, st.procs[p].stage.next.family)
    ensures var st' := ProceedStep(ProceedStep(st, p), p);
            |st'.rows| == |st.rows| && IsFenced(st'.rows, st.procs[p].stage.next.family)
              && st'.procs[p].stage == Refused
  {
    assert ProcessOk(st.rows, st.procs[p].stage);
    FenceDone(ProceedStep(st, p), p, st.procs[p].stage.id);
  }

  /** A request that failed, was refused or is done writes nothing more. */
  lemma EndedIsOver(st: State, p: nat)
    requires p < |st.procs|
    ensures st.procs[p].stage.Refused? || st.procs[p].stage.Inserted? ==> ProceedStep(st, p) == st
    ensures var failed := Step(st, Fail(p)); failed.rows == st.rows && ProceedStep(failed, p) == failed
  {
  }

  predicate HasLive(rows: seq<Record>, family: nat) {
    exists i :: 0 <= i < |rows| && rows[i].family == family && Live(rows, i)
  }

  ghost predicate CanRevive(st: State, family: nat) {
    exists es, st' :: Runs(st, es, st') && HasLive(st'.rows, family)
  }

  /** Between its two writes a rotation of the family is out of the revocation endpoint's reach. */
  predicate RotationInFlight(st: State, family: nat) {
    exists p :: 0 <= p < |st.procs| && st.procs[p].stage.Inserting? && st.procs[p].stage.next.family == family
  }

  /**
   * The revocation endpoint ends a family for good iff no rotation is between its two writes, or the family was fenced
   * already.
   */
  lemma EndpointRevocationLastsIff(before: seq<Event>, st: State, i: nat, now: int)
    requires Runs(Init(), before, st) && i < |st.rows|
    ensures CanRevive(Step(st, RevokeEndpoint(st.rows[i].family, now)), st.rows[i].family) <==>
              RotationInFlight(st, st.rows[i].family) && !IsFenced(st.rows, st.rows[i].family)
  {
    var family := st.rows[i].family;
    var st1 := Step(st, RevokeEndpoint(family, now));
    RunKeeps(Init(), before, st);
    StepKeeps(st, RevokeEndpoint(family, now));
    assert st1.rows[i].family == family;
    assert forall k :: 0 <= k < |st.rows| ==>
      st1.rows[k].family == st.rows[k].family && st1.rows[k].familyRevokedAt == st.rows[k].familyRevokedAt;
    assert IsFenced(st1.rows, family) == IsFenced(st.rows, family);
    if RotationInFlight(st, family) && !IsFenced(st.rows, family) {
      InsertRevives(st1, family);
    } else {
      assert Dead(st1, family);
      DeadCannotRevive(st1, family);
    }
  }

  lemma InsertRevives(st: State, family: nat)
    requires Inv(st) && RotationInFlight(st, family) && !IsFenced(st.rows, family)
    ensures CanRevive(st, family)
  {
    var p :| 0 <= p < |st.procs| && st.procs[p].stage.Inserting? && st.procs[p].stage.next.family == family;
    assert ProcessOk(st.rows, st.procs[p].stage);
    var es, st' := [Proceed(p)], ProceedStep(st, p);
    assert es[1..] == [] && Step(st, es[0]) == st';
    assert Runs(st', es[1..], st');
    assert Runs(st, es, st');
    assert st'.rows[|st.rows|] == st.procs[p].stage.next && Live(st'.rows, |st.rows|);
  }

  lemma DeadCannotRevive(st: State, family: nat)
    requires Inv(st) && Dead(st, family)
    ensures !CanRevive(st, family)
  {
    forall es, st' | Runs(st, es, st')
      ensures !HasLive(st'.rows, family)
    {
      RunStaysDead(st, es, st', family);
    }
  }

  /** A grant whose first token is rotated while the endpoint revokes the family: it ends with a live token. */
  lemma EndpointMissesRotation(user: string, client: string, scope: string, jkt: Option<string>, now: int, ttl: nat)
    returns (before: seq<Event>, rotating: State, st: State)
    ensures Runs(Init(), before, rotating) && RotationInFlight(rotating, 0) && !IsFenced(rotating.rows, 0)
    ensures Runs(Init(), before + [RevokeEndpoint(0, now), Proceed(0)], st) && HasLive(st.rows, 0)
  {
    hide NarrowScope;
    var issue := Issue(0, user, client, scope, jkt, now, ttl, ttl);
    var present := Present(Request(0, false, client, jkt, None, now, ttl));
    before := [issue, present, Proceed(0)];
    var st1 := Step(Init(), issue);
    assert NarrowScope(scope, None) == Ok(scope) by { NoScopeNamed(scope); }
    var st2 := Step(st1, present);
    rotating := Step(st2, Proceed(0));
    ThreeSteps(Init(), issue, present, Proceed(0), rotating);
    assert rotating.procs[0].stage.Inserting? && rotating.procs[0].stage.next.family == 0;
    var st4 := Step(rotating, RevokeEndpoint(0, now));
    st := Step(st4, Proceed(0));
    TwoMore(Init(), before, rotating, RevokeEndpoint(0, now), Proceed(0), st);
    assert st.rows[1].family == 0 && Live(st.rows, 1);
  }

  lemma NoScopeNamed(scope: string)
    ensures NarrowScope(scope, None) == Ok(scope)
  {
  }

  lemma ThreeSteps(st: State, a: Event, b: Event, c: Event, st': State)
    requires Enabled(st, a) && Enabled(Step(st, a), b) && Enabled(Step(Step(st, a), b), c)
    requires st' == Step(Step(Step(st, a), b), c)
    ensures Runs(st, [a, b, c], st')
  {
    hide Step, Enabled;
    TwoMore(Step(st, a), [], Step(st, a), b, c, st');
    assert [a, b, c][1..] == [] + [b, c];
  }

  lemma {:induction false} TwoMore(st: State, es: seq<Event>, mid: State, a: Event, b: Event, st': State)
    requires Runs(st, es, mid) && Enabled(mid, a) && Enabled(Step(mid, a), b) && st' == Step(Step(mid, a), b)
    ensures Runs(st, es + [a, b], st')
    decreases |es|
  {
    hide Step, Enabled;
    if es == [] {
      assert [a, b][1..] == [b] && [b][1..] == [];
      assert es + [a, b] == [a, b];
      assert Runs(Step(mid, a), [b], st');
    } else {
      TwoMore(Step(st, es[0]), es[1..], mid, a, b, st');
      assert (es + [a, b])[1..] == es[1..] + [a, b];
    }
  }
}
