/** Queries over the unit forest and the membership table; each read may see the tables of its own time. */
module OrgUnitQueries {
  import opened Text
  import opened UnitPaths
  import opened OrgUnits
  import opened OrgUnitRaces

  datatype MemberRow = MemberRow(id: string, tenantId: string, orgId: string, unitId: string, userId: string,
    isPrimary: bool, createdAt: int)

  /** Rows by primary key. */
  type Members = map<string, MemberRow>

  /** An active row of `memberships`; (org, user) is unique there, so a set loses nothing. */
  datatype Membership = Membership(tenantId: string, orgId: string, userId: string)

  // ---------------------------------------------------------------- members of a subtree

  /** The WHERE and JOIN conditions of the subtree query. */
  predicate Selected(t: Table, active: set<Membership>, s: Scope, path: string, m: MemberRow) {
    && m.unitId in t
    && t[m.unitId].tenantId == m.tenantId
    && InSubtree(s, path, t[m.unitId])
    && t[m.unitId].status.Active?
    && Membership(m.tenantId, m.orgId, m.userId) in active
  }

  // ---------------------------------------------------------------- ORDER BY created_at, id

  /** Texts compare character by character, a prefix first. */
  predicate TextLess(a: string, b: string)
    decreases |a|
  {
    b != "" && (a == "" || a[0] < b[0] || (a[0] == b[0] && TextLess(a[1..], b[1..])))
  }

  lemma {:induction false} TextLessTotal(a: string, b: string)
    ensures a == b || TextLess(a, b) || TextLess(b, a)
    ensures !(TextLess(a, b) && TextLess(b, a)) && (TextLess(a, b) ==> a != b)
    decreases |a|
  {
    if a != "" && b != "" {
      TextLessTotal(a[1..], b[1..]);
      assert a == [a[0]] + a[1..] && b == [b[0]] + b[1..];
    }
  }

  /** Up to this place the texts agree; there the first has ended, or has the smaller character. */
  predicate LessAt(a: string, b: string, k: nat) {
    k <= |a| && k < |b| && a[..k] == b[..k] && (k < |a| ==> a[k] < b[k])
  }

  lemma {:induction false} TextLessIff(a: string, b: string)
    ensures TextLess(a, b) <==> exists k: nat :: LessAt(a, b, k)
    decreases |a|
  {
    if a == "" {
      assert b != "" ==> LessAt(a, b, 0);
    } else if b != "" && a[0] == b[0] {
      TextLessIff(a[1..], b[1..]);
      forall k: nat
        ensures LessAt(a[1..], b[1..], k) <==> LessAt(a, b, k + 1)
      {
        assert k < |a| ==> a[..k + 1] == [a[0]] + a[1..][..k];
        assert k < |b| ==> b[..k + 1] == [b[0]] + b[1..][..k];
      }
      if k: nat :| LessAt(a, b, k) { assert k > 0 && LessAt(a[1..], b[1..], k - 1); }
    } else if b != "" {
      assert a[0] < b[0] ==> LessAt(a, b, 0);
      forall k: nat | LessAt(a, b, k)
        ensures k == 0
      {
      }
    }
  }

  lemma {:induction false} TextLessTransitive(a: string, b: string, c: string)
    requires TextLess(a, b) && TextLess(b, c)
    ensures TextLess(a, c)
    decreases |a|
  {
    if a != "" && a[0] == b[0] && b[0] == c[0] { TextLessTransitive(a[1..], b[1..], c[1..]); }
  }

  predicate Before(a: MemberRow, b: MemberRow) {
    a.createdAt < b.createdAt || (a.createdAt == b.createdAt && TextLess(a.id, b.id))
  }

  lemma BeforeIsStrict(a: MemberRow, b: MemberRow)
    requires a.id != b.id
    ensures Before(a, b) <==> !Before(b, a)
  {
    TextLessTotal(a.id, b.id);
  }

  lemma BeforeTransitive(a: MemberRow, b: MemberRow, c: MemberRow)
    requires Before(a, b) && Before(b, c)
    ensures Before(a, c)
  {
    if a.createdAt == c.createdAt { TextLessTransitive(a.id, b.id, c.id); }
  }

  predicate InOrder(rows: seq<MemberRow>) {
    forall i, j :: 0 <= i < j < |rows| ==> Before(rows[i], rows[j])
  }

  /** The id is the primary key. */
  predicate Keyed(rows: set<MemberRow>) {
    forall a, b :: a in rows && b in rows && a.id == b.id ==> a == b
  }

  predicate IsFirst(rows: set<MemberRow>, first: MemberRow) {
    first in rows && forall b :: b in rows && b != first ==> Before(first, b)
  }

  lemma {:induction false} FirstExists(rows: set<MemberRow>)
    requires rows != {} && Keyed(rows)
    ensures exists first :: IsFirst(rows, first)
    decreases |rows|
  {
    hide Before;
    var some :| some in rows;
    if rows == {some} {
      assert IsFirst(rows, some);
    } else {
      FirstExists(rows - {some});
      var rest :| IsFirst(rows - {some}, rest);
      BeforeIsStrict(some, rest);
      var first := if Before(some, rest) then some else rest;
      forall b | b in rows && b != first
        ensures Before(first, b)
      {
        if b != some && b != rest && first == some { BeforeTransitive(some, rest, b); }
      }
      assert IsFirst(rows, first);
    }
  }

  /** The rows in the order of the query. */
  ghost function Sorted(rows: set<MemberRow>): (r: seq<MemberRow>)
    requires Keyed(rows)
    ensures InOrder(r) && forall m :: m in r <==> m in rows
  {
    if rows == {} then []
    else
      FirstExists(rows);
      var first :| IsFirst(rows, first);
      [first] + Sorted(rows - {first})
  }

  // ---------------------------------------------------------------- the two reads

  predicate KeyedMembers(members: Members) {
    forall id :: id in members ==> members[id].id == id
  }

  /** `before` is the table when the unit is looked up, `t` the one the query runs on. */
  ghost function ListSubtreeMembers(before: Table, t: Table, members: Members, active: set<Membership>, s: Scope,
      unit: string)
    : Result<seq<MemberRow>, UnitError>
    requires KeyedMembers(members)
  {
    match FindActive(before, s, unit)
    case None => Err(NotFound)
    case Some(u) => Ok(Sorted(set id | id in members && Selected(t, active, s, u.path, members[id]) :: members[id]))
  }

  /** Every unit from `y` up to `x` along the parent pointers is active. */
  predicate ActiveClimb(t: Table, y: string, x: string, n: nat)
    decreases n
  {
    y in t && t[y].status.Active?
    && (if n == 0 then y == x else t[y].parentUnitId.Some? && ActiveClimb(t, t[y].parentUnitId.value, x, n - 1))
  }

  ghost predicate ReachedThroughActive(t: Table, x: string, y: string) {
    exists n: nat :: ActiveClimb(t, y, x, n)
  }

  lemma {:induction false} ActiveChain(t: Table, y: string, x: string, n: nat)
    requires Linked(t) && ActiveClosed(t) && y in t && t[y].status.Active?
    ensures Climbs(t, y, x, n) <==> ActiveClimb(t, y, x, n)
    decreases n
  {
    if n > 0 && t[y].parentUnitId.Some? {
      assert LinkedRow(t, t[y]) && ActiveRow(t, t[y]);
      ActiveChain(t, t[y].parentUnitId.value, x, n - 1);
    }
  }

  /**
   * A path read earlier selects the descendants of its unit if that is still where it was, and nothing at all
   * otherwise.
   */
  lemma StalePathSelects(t: Table, s: Scope, unit: UnitRow, y: string)
    requires Linked(t) && SnapOk(t, s, unit) && y in t
    ensures InSubtree(s, unit.path, t[y]) <==> t[unit.id].path == unit.path && AncestorOrSelf(t, unit.id, y)
  {
    assert LocalRow(t[y]);
    RowIds(unit);
    RowIds(t[y]);
    GlobIffIds(IdsOf(unit.path), IdsOf(t[y].path));
    if InSubtree(s, unit.path, t[y]) { OwnerOfPath(t, unit, y); }
    if t[unit.id].path == unit.path { GlobIffDescendant(t, unit.id, y); }
  }

  /**
   * Whatever happened since the unit was looked up, the query returns in order exactly the members, with an active
   * membership, of units reached from it through active units, if the unit is still where it was; if it has moved the
   * query returns nobody.
   */
  lemma SubtreeMembersExact(before: Table, t: Table, members: Members, active: set<Membership>, s: Scope, unit: string)
    requires Local(before) && Linked(t) && ActiveClosed(t) && SameRows(before, t)
    requires KeyedMembers(members)
    ensures var r := ListSubtreeMembers(before, t, members, active, s, unit);
            if !HasActive(before, s, unit) then r == Err(NotFound)
            else
              && r.Ok?
              && (forall i, j :: 0 <= i < j < |r.value| ==>
                    && r.value[i].createdAt <= r.value[j].createdAt
                    && (r.value[i].createdAt == r.value[j].createdAt ==> TextLess(r.value[i].id, r.value[j].id)))
              && forall m :: m in r.value <==>
                   && m.id in members && members[m.id] == m
                   && t[unit].path == before[unit].path
                   && m.unitId in t && t[m.unitId].tenantId == m.tenantId
                   && ReachedThroughActive(t, unit, m.unitId)
                   && Membership(m.tenantId, m.orgId, m.userId) in active
  {
    if !HasActive(before, s, unit) { return; }
    var u := before[unit];
    assert LocalRow(u) && SnapOk(t, s, u);
    forall id | id in members
      ensures Selected(t, active, s, u.path, members[id]) <==>
                && t[unit].path == u.path
                && members[id].unitId in t && t[members[id].unitId].tenantId == members[id].tenantId
                && ReachedThroughActive(t, unit, members[id].unitId)
                && Membership(members[id].tenantId, members[id].orgId, members[id].userId) in active
    {
      var y := members[id].unitId;
      if y in t {
        StalePathSelects(t, s, u, y);
        if t[y].status.Active? { ReachedIffDescendant(t, unit, y); }
      }
    }
  }

  lemma ReachedIffDescendant(t: Table, x: string, y: string)
    requires Linked(t) && ActiveClosed(t) && y in t && t[y].status.Active?
    ensures ReachedThroughActive(t, x, y) <==> AncestorOrSelf(t, x, y)
  {
    forall n: nat
      ensures Climbs(t, y, x, n) <==> ActiveClimb(t, y, x, n)
    {
      ActiveChain(t, y, x, n);
    }
  }

  // ---------------------------------------------------------------- the nearest manager

  datatype Approver = Approver(managerUserId: string, viaUnitId: string, depth: int)

  /** The reference: walk up the parent pointers and stop at the first active unit that has a manager. */
  function FirstManagerUp(t: Table, unit: string): Option<Approver>
    requires Linked(t) && unit in t
    decreases t[unit].depth
  {
    var r := t[unit];
    if r.status.Active? && r.managerUserId.Some? then Some(Approver(r.managerUserId.value, unit, r.depth))
    else match r.parentUnitId
      case None => None
      case Some(p) =>
        ParentAbove(t, unit);
        FirstManagerUp(t, p)
  }

  lemma ParentAbove(t: Table, unit: string)
    requires Linked(t) && unit in t && t[unit].parentUnitId.Some?
    ensures t[unit].parentUnitId.value in t && 0 < t[t[unit].parentUnitId.value].depth < t[unit].depth
  {
    assert LinkedRow(t, t[unit]);
    assert LocalRow(t[unit]) && LocalRow(t[t[unit].parentUnitId.value]);
  }

  /** A unit named on the path of `unit`, active and managed. */
  predicate Candidate(t: Table, unit: string, a: string)
    requires unit in t
  {
    a in t && a in IdsOf(t[unit].path) && t[a].status.Active? && t[a].managerUserId.Some?
  }

  /** Depths along one path are pairwise different. */
  lemma DepthOnPath(t: Table, unit: string, a: string)
    requires Linked(t) && unit in t && a in t && a in IdsOf(t[unit].path)
    ensures 1 <= t[a].depth <= |IdsOf(t[unit].path)| && IdsOf(t[unit].path)[t[a].depth - 1] == a
    ensures InScope(t[a], Scope(t[unit].tenantId, t[unit].orgId))
  {
    var ids := IdsOf(t[unit].path);
    var k :| 0 <= k < |ids| && ids[k] == a;
    AncestorAt(t, unit, k);
    assert LocalRow(t[a]);
    RowIds(t[a]);
  }

  /** The deepest candidate on the path is what the walk up finds. */
  lemma {:induction false} DeepestIsFirst(t: Table, unit: string, best: string)
    requires Linked(t) && unit in t && Candidate(t, unit, best)
    requires forall a :: Candidate(t, unit, a) ==> t[a].depth <= t[best].depth
    ensures FirstManagerUp(t, unit) == Some(Approver(t[best].managerUserId.value, best, t[best].depth))
    decreases t[unit].depth
  {
    assert LocalRow(t[unit]);
    RowIds(t[unit]);
    var ids := IdsOf(t[unit].path);
    DepthOnPath(t, unit, best);
    if Candidate(t, unit, unit) {
      assert t[best].depth == |ids|;
    } else {
      assert best != unit;
      match t[unit].parentUnitId
      case None => RootIds(t, unit);
      case Some(p) =>
        ParentIds(t, unit);
        ParentAbove(t, unit);
        forall a
          ensures Candidate(t, p, a) <==> Candidate(t, unit, a)
        {
          assert ids == IdsOf(t[p].path) + [unit];
          if Candidate(t, p, a) { DepthOnPath(t, p, a); }
        }
        DeepestIsFirst(t, p, best);
    }
  }

  lemma {:induction false} NoCandidateNoManager(t: Table, unit: string)
    requires Linked(t) && unit in t
    requires forall a :: !Candidate(t, unit, a)
    ensures FirstManagerUp(t, unit) == None
    decreases t[unit].depth
  {
    assert LocalRow(t[unit]);
    RowIds(t[unit]);
    assert !Candidate(t, unit, unit);
    match t[unit].parentUnitId
    case None =>
    case Some(p) =>
      ParentIds(t, unit);
      ParentAbove(t, unit);
      forall a
        ensures !Candidate(t, p, a)
      {
        assert IdsOf(t[unit].path) == IdsOf(t[p].path) + [unit];
        assert !Candidate(t, unit, a);
      }
      NoCandidateNoManager(t, p);
  }

  /** The active rows whose ids the path names. */
  function AncestorRows(t: Table, s: Scope, unit: UnitRow): set<string> {
    var ancestorIds := NonEmpty(Split(unit.path, '/'));
    set id | id in ancestorIds && FindActive(t, s, id).Some?
  }

  lemma AncestorRowsHold(t: Table, s: Scope, unit: string)
    requires Linked(t) && Find(t, s, unit).Some?
    ensures forall a :: a in AncestorRows(t, s, t[unit]) ==>
              a in t && t[a].id == a && a in IdsOf(t[unit].path) && t[a].status.Active?
    ensures forall a :: Candidate(t, unit, a) ==> a in AncestorRows(t, s, t[unit])
  {
    assert LocalRow(t[unit]);
    RowIds(t[unit]);
    SplitPath(IdsOf(t[unit].path));
    forall a | Candidate(t, unit, a)
      ensures a in AncestorRows(t, s, t[unit])
    {
      DepthOnPath(t, unit, a);
    }
  }

  /** The deepest managed row among those the path of the unit names. */
  predicate IsDeepest(t: Table, s: Scope, unit: UnitRow, a: Approver) {
    && a.viaUnitId in AncestorRows(t, s, unit)
    && t[a.viaUnitId].managerUserId == Some(a.managerUserId) && t[a.viaUnitId].depth == a.depth
    && forall b :: b in AncestorRows(t, s, unit) && t[b].managerUserId.Some? ==> t[b].depth <= a.depth
  }

  /** The scan over the rows of the path of a unit read earlier, which may come in any order. */
  method DeepestManager(t: Table, s: Scope, unit: UnitRow) returns (r: Option<Approver>)
    requires Local(t)
    ensures r.None? <==> forall a :: a in AncestorRows(t, s, unit) ==> t[a].managerUserId.None?
    ensures r.Some? ==> IsDeepest(t, s, unit, r.value)
  {
    var rows := AncestorRows(t, s, unit);
    var nearest: Option<UnitRow> := None;
    ghost var all := rows;
    assert forall a :: a in all ==> a in t && LocalRow(t[a]) && t[a].id == a;
    hide AncestorRows, LocalRow;
    while rows != {}
      invariant rows <= all
      invariant nearest.Some? ==> nearest.value.id in all && nearest.value == t[nearest.value.id]
                                  && nearest.value.managerUserId.Some?
      invariant forall a :: a in all && a !in rows && t[a].managerUserId.Some? ==>
                  nearest.Some? && t[a].depth <= nearest.value.depth
      decreases |rows|
    {
      var id :| id in rows;
      rows := rows - {id};
      var row := t[id];
      if row.managerUserId.Some? && (nearest.None? || row.depth > nearest.value.depth) {
        nearest := Some(row);
      }
    }
    if nearest.None? { return None; }
    r := Some(Approver(nearest.value.managerUserId.value, nearest.value.id, nearest.value.depth));
  }

  /** On the path the unit still has, that row is what the walk up finds. */
  lemma DeepestIsNearest(t: Table, s: Scope, unit: UnitRow, r: Option<Approver>)
    requires Linked(t) && SnapOk(t, s, unit) && t[unit.id].path == unit.path
    requires r.None? <==> forall a :: a in AncestorRows(t, s, unit) ==> t[a].managerUserId.None?
    requires r.Some? ==> IsDeepest(t, s, unit, r.value)
    ensures r == FirstManagerUp(t, unit.id)
  {
    assert LocalRow(t[unit.id]) && t[unit.id].id == unit.id;
    AncestorRowsHold(t, s, unit.id);
    hide Linked, IdsOf;
    assert AncestorRows(t, s, unit) == AncestorRows(t, s, t[unit.id]);
    if r.None? {
      NoCandidateNoManager(t, unit.id);
    } else {
      DeepestIsFirst(t, unit.id, r.value.viaUnitId);
    }
  }

  // ---------------------------------------------------------------- one primary unit per user

  predicate SamePerson(a: MemberRow, b: MemberRow) {
    a.tenantId == b.tenantId && a.orgId == b.orgId && a.userId == b.userId
  }

  predicate MemberClash(a: MemberRow, b: MemberRow) {
    (a.unitId == b.unitId && a.userId == b.userId) || (SamePerson(a, b) && a.isPrimary && b.isPrimary)
  }

  /** The (unit, user) index and the partial index on primary rows. */
  predicate MemberIndexes(ms: Members) {
    forall a, b {:trigger MemberClash(ms[a], ms[b])} :: a in ms && b in ms && a != b ==> !MemberClash(ms[a], ms[b])
  }

  function ClearPrimary(ms: Members, s: Scope, user: string): Members {
    map id | id in ms ::
      if ms[id].tenantId == s.tenantId && ms[id].orgId == s.orgId && ms[id].userId == user
        then ms[id].(isPrimary := false) else ms[id]
  }

  function MarkPrimary(ms: Members, s: Scope, unit: string, user: string): Members {
    map id | id in ms ::
      if ms[id].tenantId == s.tenantId && ms[id].orgId == s.orgId && ms[id].unitId == unit && ms[id].userId == user
      then ms[id].(isPrimary := true) else ms[id]
  }

  /** A statement commits only when the indexes accept its result. */
  function Checked(ms: Members): Option<Members> {
    if MemberIndexes(ms) then Some(ms) else None
  }

  /** setPrimaryUnit's batch: clear the old primary row, mark the new one. */
  function SetPrimaryBatch(ms: Members, s: Scope, unit: string, user: string): Option<Members> {
    Checked(MarkPrimary(ClearPrimary(ms, s, user), s, unit, user))
  }

  /** addUnitMember's batch for a primary membership. */
  function AddPrimaryBatch(ms: Members, s: Scope, unit: string, user: string, id: string, now: int): Option<Members> {
    var cleared := ClearPrimary(ms, s, user);
    if id in cleared then None
    else Checked(cleared[id := MemberRow(id, s.tenantId, s.orgId, unit, user, true, now)])
  }

  /**
   * The batch never trips an index, and afterwards the user's only primary row is the one of `unit`, if it is still
   * there.
   */
  lemma SetPrimaryExact(ms: Members, s: Scope, unit: string, user: string)
    requires MemberIndexes(ms)
    ensures var r := SetPrimaryBatch(ms, s, unit, user);
            && r.Some? && r.value.Keys == ms.Keys
            && (forall id :: id in ms ==>
                 r.value[id] == if ms[id].tenantId == s.tenantId && ms[id].orgId == s.orgId && ms[id].userId == user
                                then ms[id].(isPrimary := ms[id].unitId == unit) else ms[id])
  {
    var r := MarkPrimary(ClearPrimary(ms, s, user), s, unit, user);
    forall a, b | a in r && b in r && a != b
      ensures !MemberClash(r[a], r[b])
    {
      assert !MemberClash(ms[a], ms[b]);
    }
  }

  /** Adding a primary member fails, without a trace, exactly on a taken id or an existing membership of the unit. */
  lemma AddPrimaryExact(ms: Members, s: Scope, unit: string, user: string, id: string, now: int)
    requires MemberIndexes(ms)
    ensures var r := AddPrimaryBatch(ms, s, unit, user, id, now);
            && (r.Some? <==> id !in ms && forall m :: m in ms ==> !(ms[m].unitId == unit && ms[m].userId == user))
            && (r.Some? ==>
                 && MemberIndexes(r.value) && r.value.Keys == ms.Keys + {id}
                 && r.value[id] == MemberRow(id, s.tenantId, s.orgId, unit, user, true, now)
                 && forall m :: m in ms ==>
                      r.value[m] == if ms[m].tenantId == s.tenantId && ms[m].orgId == s.orgId && ms[m].userId == user
                                    then ms[m].(isPrimary := false) else ms[m])
  {
    var cleared := ClearPrimary(ms, s, user);
    var row := MemberRow(id, s.tenantId, s.orgId, unit, user, true, now);
    var r := cleared[id := row];
    if id !in ms {
      if m :| m in ms && ms[m].unitId == unit && ms[m].userId == user {
        assert MemberClash(r[m], r[id]);
      } else {
        forall a, b | a in r && b in r && a != b
          ensures !MemberClash(r[a], r[b])
        {
          assert a in ms && b in ms ==> !MemberClash(ms[a], ms[b]);
        }
      }
    }
  }

  // ---------------------------------------------------------------- the approver of a user

  /** `findOne(userId, isPrimary)`: a primary row of the user. */
  predicate IsPrimaryOf(members: Members, s: Scope, user: string, id: string) {
    && id in members
    && members[id].tenantId == s.tenantId && members[id].orgId == s.orgId
    && members[id].userId == user && members[id].isPrimary
  }

  /**
   * Each read sees its own time: `members` is read first, the unit in `before`, the rows of its path in `t`. The
   * approver is the deepest managed row of the path that was read, which is what the walk up from the user's primary
   * unit finds if that unit is still where it was read. Without a primary row, or without its unit, there is none.
   */
  method ResolveApproverChain(members: Members, before: Table, t: Table, s: Scope, user: string)
    returns (r: Option<Approver>)
    requires MemberIndexes(members) && Local(before) && Linked(t) && SameRows(before, t)
    ensures (forall id :: id in members ==> !IsPrimaryOf(members, s, user, id)) ==> r == None
    ensures forall id :: IsPrimaryOf(members, s, user, id) ==>
              var unit := members[id].unitId;
              if Find(before, s, unit).None? then r == None
              else
                && (r.Some? ==> IsDeepest(t, s, before[unit], r.value))
                && (r.None? <==> forall a :: a in AncestorRows(t, s, before[unit]) ==> t[a].managerUserId.None?)
                && (t[unit].path == before[unit].path ==> r == FirstManagerUp(t, unit))
  {
    var primaries := set id | id in members && IsPrimaryOf(members, s, user, id);
    assert forall id :: IsPrimaryOf(members, s, user, id) ==> id in primaries;
    if primaries == {} { return None; }
    var p :| p in primaries;
    forall id | IsPrimaryOf(members, s, user, id)
      ensures id == p
    {
      assert id == p || !MemberClash(members[id], members[p]);
    }
    var unit := Find(before, s, members[p].unitId);
    if unit.None? { return None; }
    assert LocalRow(unit.value) && SnapOk(t, s, unit.value);
    r := DeepestManager(t, s, unit.value);
    if t[unit.value.id].path == unit.value.path { DeepestIsNearest(t, s, unit.value, r); }
  }
}
