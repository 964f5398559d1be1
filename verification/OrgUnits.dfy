/**
 * The `org_units` table: a forest kept both as parent pointers and as materialised paths.
 * Statements are functions from table to table; a batch either commits or rolls back.
 */
module OrgUnits {
  import opened Text
  import opened UnitPaths

  const MAX_DEPTH := 8

  datatype Status = Active | Archived

  datatype UnitRow = UnitRow(
    id: string,
    tenantId: string,
    orgId: string,
    parentUnitId: Option<string>,
    path: string,
    depth: int,
    slug: string,
    managerUserId: Option<string>,
    status: Status)

  /** Rows by primary key. */
  type Table = map<string, UnitRow>

  datatype Scope = Scope(tenantId: string, orgId: string)

  /** `Uncaught` is a unique violation that the operation does not turn into a result. */
  datatype UnitError = NotFound | DepthLimit | Conflict | AlreadyExists | Uncaught

  type Outcome = Result<UnitRow, UnitError>

  // ---------------------------------------------------------------- well-formed tables

  /** What every row keeps under every interleaving: the path ends in the row's own id and depth counts its ids. */
  predicate LocalRow(r: UnitRow) {
    && IsPath(r.path)
    && r.depth > 0
    && |r.path| == SEGMENT * r.depth
    && r.path[|r.path| - ID_LENGTH..] == r.id
  }

  predicate Local(t: Table) {
    && (forall id :: id in t ==> t[id].id == id)
    && (forall id {:trigger LocalRow(t[id])} :: id in t ==> LocalRow(t[id]))
  }

  predicate SameScope(a: UnitRow, b: UnitRow) {
    a.tenantId == b.tenantId && a.orgId == b.orgId
  }

  /** The path is the parent's path, a slash and the own id. */
  predicate LinkedRow(t: Table, r: UnitRow) {
    match r.parentUnitId
    case None => r.path == "/" + r.id
    case Some(p) => p in t && SameScope(t[p], r) && r.path == t[p].path + "/" + r.id
  }

  predicate Linked(t: Table) {
    Local(t) && forall id {:trigger LinkedRow(t, t[id])} :: id in t ==> LinkedRow(t, t[id])
  }

  predicate ActiveRow(t: Table, r: UnitRow) {
    r.status.Active? && r.parentUnitId.Some? && r.parentUnitId.value in t ==> t[r.parentUnitId.value].status.Active?
  }

  /** The parent of an active unit is active. */
  predicate ActiveClosed(t: Table) {
    forall id {:trigger ActiveRow(t, t[id])} :: id in t ==> ActiveRow(t, t[id])
  }

  predicate DepthBounded(t: Table) {
    forall id :: id in t ==> t[id].depth <= MAX_DEPTH
  }

  /** Two rows collide in the (tenant, org, parent, slug) index; NULL parents never compare equal. */
  predicate SlugClash(a: UnitRow, b: UnitRow) {
    SameScope(a, b) && a.parentUnitId.Some? && a.parentUnitId == b.parentUnitId && a.slug == b.slug
  }

  /** Two rows collide in the (tenant, path) index. */
  predicate PathClash(a: UnitRow, b: UnitRow) {
    a.tenantId == b.tenantId && a.path == b.path
  }

  predicate UniqueIndexes(t: Table) {
    forall a, b {:trigger SlugClash(t[a], t[b])} {:trigger PathClash(t[a], t[b])} ::
      a in t && b in t && a != b ==> !SlugClash(t[a], t[b]) && !PathClash(t[a], t[b])
  }

  predicate Forest(t: Table) {
    Linked(t) && ActiveClosed(t) && DepthBounded(t) && UniqueIndexes(t)
  }

  // ---------------------------------------------------------------- reads

  predicate InScope(r: UnitRow, s: Scope) {
    r.tenantId == s.tenantId && r.orgId == s.orgId
  }

  function Find(t: Table, s: Scope, id: string): (r: Option<UnitRow>)
    ensures r.Some? ==> id in t && r.value == t[id]
  {
    if id in t && InScope(t[id], s) then Some(t[id]) else None
  }

  function FindActive(t: Table, s: Scope, id: string): (r: Option<UnitRow>)
    ensures r.Some? ==> id in t && r.value == t[id] && t[id].status.Active?
  {
    if id in t && InScope(t[id], s) && t[id].status.Active? then Some(t[id]) else None
  }

  /** `path GLOB '<node path>*'`. */
  predicate Under(nodePath: string, path: string) {
    '[' !in nodePath + "*" && Glob(nodePath + "*", path)
  }

  predicate InSubtree(s: Scope, nodePath: string, r: UnitRow) {
    InScope(r, s) && Under(nodePath, r.path)
  }

  /** The depth check of a move: the deepest row read under the node still fits after the shift. */
  predicate DepthFits(t: Table, s: Scope, node: UnitRow, delta: int) {
    && node.depth + delta <= MAX_DEPTH
    && forall id :: id in t && InSubtree(s, node.path, t[id]) ==> t[id].depth + delta <= MAX_DEPTH
  }

  // ---------------------------------------------------------------- statements

  /** A plain INSERT; None is a unique violation. */
  function Insert(t: Table, row: UnitRow): Option<Table> {
    if row.id in t || !UniqueIndexes(t[row.id := row]) then None else Some(t[row.id := row])
  }

  /** The EXISTS guard of a child insert: the parent is still active and still at the path that was read. */
  predicate ParentCurrent(t: Table, s: Scope, parent: UnitRow) {
    && parent.id in t
    && t[parent.id].tenantId == s.tenantId
    && t[parent.id].status.Active?
    && t[parent.id].path == parent.path
  }

  function NewRow(s: Scope, parent: Option<UnitRow>, id: string, slug: string, manager: Option<string>): UnitRow {
    match parent
    case None => UnitRow(id, s.tenantId, s.orgId, None, "/" + id, 1, slug, manager, Active)
    case Some(p) => UnitRow(id, s.tenantId, s.orgId, Some(p.id), p.path + "/" + id, p.depth + 1, slug, manager, Active)
  }

  /** Everything createUnit does after it read the parent. */
  function CreateUnder(t: Table, s: Scope, parent: Option<UnitRow>, id: string, slug: string, manager: Option<string>)
    : (Table, Outcome)
  {
    var row := NewRow(s, parent, id, slug, manager);
    if row.depth > MAX_DEPTH then (t, Err(DepthLimit))
    else if parent.Some? && !ParentCurrent(t, s, parent.value) then (t, Err(Conflict))
    else match Insert(t, row)
      case None => (t, Err(AlreadyExists))
      case Some(t') => (t', Ok(row))
  }

  predicate IntoOwnSubtree(node: UnitRow, target: UnitRow) {
    target.id == node.id || node.path + "/" <= target.path
  }

  /** What a move adds to every depth in the subtree. */
  function Delta(node: UnitRow, target: UnitRow): int {
    target.depth + 1 - node.depth
  }

  function NewPrefix(node: UnitRow, target: UnitRow): string {
    target.path + "/" + node.id
  }

  /** SQLite substr(s, n + 1). */
  function DropChars(s: string, n: nat): string {
    if n <= |s| then s[n..] else ""
  }

  /** Statement 1 of a move matches exactly when the node is still at the path that was read. */
  predicate StillAt(t: Table, s: Scope, node: UnitRow) {
    node.id in t && InScope(t[node.id], s) && t[node.id].path == node.path
  }

  function Repoint(t: Table, s: Scope, node: UnitRow, target: UnitRow): Table {
    if StillAt(t, s, node)
    then
      var r := t[node.id];
      t[node.id := r.(parentUnitId := Some(target.id), path := NewPrefix(node, target), depth := target.depth + 1)]
    else t
  }

  /** The EXISTS guard of statement 2. */
  predicate Landed(t: Table, s: Scope, node: UnitRow, target: UnitRow) {
    && node.id in t
    && t[node.id].tenantId == s.tenantId
    && t[node.id].parentUnitId == Some(target.id)
    && t[node.id].path == NewPrefix(node, target)
  }

  function RewriteRow(r: UnitRow, s: Scope, node: UnitRow, target: UnitRow): UnitRow {
    if InSubtree(s, node.path, r)
    then r.(path := NewPrefix(node, target) + DropChars(r.path, |node.path|), depth := r.depth + Delta(node, target))
    else r
  }

  /** Statement 2 of a move. */
  function Rewrite(t: Table, s: Scope, node: UnitRow, target: UnitRow): Table {
    if Landed(t, s, node, target) then map id | id in t :: RewriteRow(t[id], s, node, target) else t
  }

  /** The two statements in one atomic batch; None is a rollback on a unique violation. */
  function MoveBatch(t: Table, s: Scope, node: UnitRow, target: UnitRow): Option<Table> {
    var t1 := Repoint(t, s, node, target);
    if !UniqueIndexes(t1) then None
    else
      var t2 := Rewrite(t1, s, node, target);
      if UniqueIndexes(t2) then Some(t2) else None
  }

  /** Everything moveUnit does after its reads. */
  function MoveAfterReads(t: Table, s: Scope, node: UnitRow, target: UnitRow, fits: bool): (Table, Outcome) {
    if IntoOwnSubtree(node, target) then (t, Err(Conflict))
    else if !fits then (t, Err(DepthLimit))
    else match MoveBatch(t, s, node, target)
      case None => (t, Err(Uncaught))
      case Some(t') =>
        if !StillAt(t, s, node) then (t', Err(Conflict))
        else match Find(t', s, node.id)
          case None => (t', Err(NotFound))
          case Some(r) => (t', Ok(r))
  }

  predicate HasActiveChild(t: Table, s: Scope, id: string) {
    exists c :: c in t && InScope(t[c], s) && t[c].parentUnitId == Some(id) && t[c].status.Active?
  }

  /** The UPDATE of archiveUnit. */
  function Archive(t: Table, s: Scope, id: string): (Table, Outcome) {
    if FindActive(t, s, id).None? then (t, Err(NotFound))
    else (t[id := t[id].(status := Archived)], Ok(t[id].(status := Archived)))
  }

  datatype Patch = Patch(slug: Option<string>, manager: Option<Option<string>>)

  function Patched(r: UnitRow, p: Patch): UnitRow {
    var r1 := if p.slug.Some? then r.(slug := p.slug.value) else r;
    if p.manager.Some? then r1.(managerUserId := p.manager.value) else r1
  }

  function Update(t: Table, s: Scope, id: string, p: Patch): (Table, Outcome) {
    if Find(t, s, id).None? then (t, Err(NotFound))
    else
      var t' := t[id := Patched(t[id], p)];
      if UniqueIndexes(t') then (t', Ok(t'[id])) else (t, Err(AlreadyExists))
  }

  // ---------------------------------------------------------------- whole operations, nothing interleaved

  datatype Op =
    | CreateUnit(s: Scope, parent: Option<string>, id: string, slug: string, manager: Option<string>)
    | MoveUnit(s: Scope, unit: string, parentId: string)
    | ArchiveUnit(s: Scope, unit: string)
    | UpdateUnit(s: Scope, unit: string, patch: Patch)

  /** The id of a created unit comes from the id generator. */
  predicate WellTyped(op: Op) {
    op.CreateUnit? ==> IsUnitId(op.id)
  }

  function Exec(t: Table, op: Op): (Table, Outcome) {
    match op
    case CreateUnit(s, parent, id, slug, manager) =>
      if parent.Some? && FindActive(t, s, parent.value).None? then (t, Err(NotFound))
      else CreateUnder(t, s, if parent.Some? then FindActive(t, s, parent.value) else None, id, slug, manager)
    case MoveUnit(s, unit, parentId) =>
      var node := Find(t, s, unit);
      var target := FindActive(t, s, parentId);
      if node.None? || target.None? then (t, Err(NotFound))
      else MoveAfterReads(t, s, node.value, target.value,
                          DepthFits(t, s, node.value, Delta(node.value, target.value)))
    case ArchiveUnit(s, unit) =>
      if HasActiveChild(t, s, unit) then (t, Err(Conflict)) else Archive(t, s, unit)
    case UpdateUnit(s, unit, patch) => Update(t, s, unit, patch)
  }

  function Run(t: Table, ops: seq<Op>): Table
    decreases |ops|
  {
    if ops == [] then t else Run(Exec(t, ops[0]).0, ops[1..])
  }

  // ---------------------------------------------------------------- paths and pointers agree

  /** `x` is reached from `y` by following `n` parent pointers. */
  predicate Climbs(t: Table, y: string, x: string, n: nat)
    decreases n
  {
    if n == 0 then y == x
    else y in t && t[y].parentUnitId.Some? && Climbs(t, t[y].parentUnitId.value, x, n - 1)
  }

  ghost predicate AncestorOrSelf(t: Table, x: string, y: string) {
    exists n: nat :: Climbs(t, y, x, n)
  }

  lemma RowIds(r: UnitRow)
    requires LocalRow(r)
    ensures AllIds(IdsOf(r.path)) && PathOf(IdsOf(r.path)) == r.path && IsUnitId(r.id)
    ensures |IdsOf(r.path)| == r.depth && IdsOf(r.path)[r.depth - 1] == r.id
  {
    PathOfIds(r.path);
    assert IdsOf(r.path)[r.depth - 1] == IdAt(r.path, r.depth - 1);
  }

  lemma LocalFromIds(r: UnitRow, ids: seq<string>)
    requires AllIds(ids) && ids != [] && r.path == PathOf(ids) && r.depth == |ids| && ids[|ids| - 1] == r.id
    ensures LocalRow(r)
  {
    IdsOfPath(ids);
    PathLength(ids);
    SegmentAt(ids, |ids| - 1);
  }

  lemma ParentIds(t: Table, id: string)
    requires Linked(t) && id in t && t[id].parentUnitId.Some?
    ensures t[id].parentUnitId.value in t
    ensures IdsOf(t[id].path) == IdsOf(t[t[id].parentUnitId.value].path) + [id]
  {
    assert LinkedRow(t, t[id]);
    var p := t[t[id].parentUnitId.value];
    RowIds(t[id]);
    RowIds(p);
    AppendId(IdsOf(p.path), id);
  }

  lemma RootIds(t: Table, id: string)
    requires Linked(t) && id in t && t[id].parentUnitId.None?
    ensures IdsOf(t[id].path) == [id]
  {
    assert LinkedRow(t, t[id]);
    RowIds(t[id]);
    RootPath(id);
  }

  /** Every id on a path names a row of the same scope whose path is the path up to there, and pointers lead to it. */
  lemma {:induction false} AncestorAt(t: Table, id: string, k: nat)
    requires Linked(t) && id in t && k < |IdsOf(t[id].path)|
    ensures IdsOf(t[id].path)[k] in t
    ensures IdsOf(t[IdsOf(t[id].path)[k]].path) == IdsOf(t[id].path)[..k + 1]
    ensures SameScope(t[IdsOf(t[id].path)[k]], t[id])
    ensures Climbs(t, id, IdsOf(t[id].path)[k], |IdsOf(t[id].path)| - 1 - k)
    decreases |IdsOf(t[id].path)|
  {
    var ids := IdsOf(t[id].path);
    RowIds(t[id]);
    if k == |ids| - 1 {
      assert ids[..k + 1] == ids;
    } else if t[id].parentUnitId.None? {
      RootIds(t, id);
    } else {
      ParentIds(t, id);
      var p := t[id].parentUnitId.value;
      assert LinkedRow(t, t[id]);
      AncestorAt(t, p, k);
      assert ids[..k + 1] == IdsOf(t[p].path)[..k + 1];
    }
  }

  lemma {:induction false} ClimbIds(t: Table, y: string, x: string, n: nat)
    requires Linked(t) && y in t && Climbs(t, y, x, n)
    ensures x in t && IdsOf(t[x].path) <= IdsOf(t[y].path) && n == |IdsOf(t[y].path)| - |IdsOf(t[x].path)|
    decreases n
  {
    if n > 0 {
      ParentIds(t, y);
      ClimbIds(t, t[y].parentUnitId.value, x, n - 1);
    }
  }

  /** The path index agrees with the parent pointers: `GLOB path*` holds exactly for descendants-or-self. */
  lemma GlobIffDescendant(t: Table, x: string, y: string)
    requires Linked(t) && x in t && y in t
    ensures Under(t[x].path, t[y].path) <==> AncestorOrSelf(t, x, y)
    ensures AncestorOrSelf(t, x, y) ==> SameScope(t[x], t[y])
    ensures Under(t[x].path, t[y].path) <==> IdsOf(t[x].path) <= IdsOf(t[y].path)
  {
    var a, b := IdsOf(t[x].path), IdsOf(t[y].path);
    RowIds(t[x]);
    RowIds(t[y]);
    GlobIffIds(a, b);
    if a <= b {
      assert b[|a| - 1] == x;
      AncestorAt(t, y, |a| - 1);
    }
    if AncestorOrSelf(t, x, y) {
      var n: nat :| Climbs(t, y, x, n);
      ClimbIds(t, y, x, n);
      assert b[|a| - 1] == x;
      AncestorAt(t, y, |a| - 1);
    }
  }

  /** Parent pointers have no cycle. */
  lemma NoCycle(t: Table, x: string, n: nat)
    requires Linked(t) && x in t && n > 0
    ensures !Climbs(t, x, x, n)
  {
    if Climbs(t, x, x, n) {
      ClimbIds(t, x, x, n);
    }
  }

  /** A path ends in the row's primary key, so the (tenant, path) index can never reject a statement. */
  lemma PathIndexNeverFires(t: Table, a: string, b: string)
    requires Local(t) && a in t && b in t && a != b
    ensures !PathClash(t[a], t[b])
  {
    assert LocalRow(t[a]) && LocalRow(t[b]);
  }

  // ---------------------------------------------------------------- what a move does

  /** The ids a moved row must have. */
  function MovedIds(r: UnitRow, node: UnitRow, target: UnitRow): seq<string>
    requires IdsOf(node.path) <= IdsOf(r.path)
  {
    IdsOf(target.path) + [node.id] + IdsOf(r.path)[|IdsOf(node.path)|..]
  }

  /**
   * The row a move must leave, written with lists of ids: the node's ids are replaced by the target's ids and the node.
   */
  function MovedRow(r: UnitRow, node: UnitRow, target: UnitRow): UnitRow
    requires IdsOf(node.path) <= IdsOf(r.path)
  {
    var ids := MovedIds(r, node, target);
    r.(path := PathOf(ids), depth := |ids|)
  }

  /** The table after re-rooting the subtree of `node` below `target`. */
  function Rerooted(t: Table, s: Scope, node: UnitRow, target: UnitRow): Table {
    map id | id in t ::
      if InScope(t[id], s) && IdsOf(node.path) <= IdsOf(t[id].path)
      then (if id == node.id then MovedRow(t[id], node, target).(parentUnitId := Some(target.id))
        else MovedRow(t[id], node, target))
      else t[id]
  }

  lemma SubtreeIff(r: UnitRow, s: Scope, node: UnitRow)
    requires LocalRow(r) && LocalRow(node)
    ensures InSubtree(s, node.path, r) <==> InScope(r, s) && IdsOf(node.path) <= IdsOf(r.path)
  {
    hide IsPath, IdsOf, PathOf, Glob;
    RowIds(r);
    RowIds(node);
    GlobIffIds(IdsOf(node.path), IdsOf(r.path));
  }

  lemma CutPath(a: seq<string>, b: seq<string>, c: seq<string>, id: string)
    requires a <= b && AllIds(c) && IsUnitId(id)
    ensures PathOf(c + [id] + b[|a|..]) == PathOf(c) + "/" + id + DropChars(PathOf(b), |PathOf(a)|)
  {
    hide PathOf, IdsOf, IsUnitId, IsPath;
    assert b == a + b[|a|..];
    PathConcat(a, b[|a|..]);
    AppendId(c, id);
    PathConcat(c + [id], b[|a|..]);
  }

  lemma MovedIdsOk(r: UnitRow, node: UnitRow, target: UnitRow)
    requires LocalRow(r) && LocalRow(node) && LocalRow(target) && IdsOf(node.path) <= IdsOf(r.path)
    ensures AllIds(MovedIds(r, node, target))
              && |MovedIds(r, node, target)| == r.depth + (target.depth + 1 - node.depth)
    ensures MovedIds(r, node, target) != [] && MovedIds(r, node, target)[|MovedIds(r, node, target)| - 1] == r.id
  {
    hide IsPath, IdsOf, PathOf, IsUnitId;
    RowIds(r);
    RowIds(node);
    RowIds(target);
    assert |IdsOf(node.path)| == |IdsOf(r.path)| ==> r.id == node.id;
  }

  /** A rewritten row keeps its own last id and the right depth, whatever node and target were read. */
  lemma RewriteRowIds(r: UnitRow, s: Scope, node: UnitRow, target: UnitRow)
    requires LocalRow(r) && LocalRow(node) && LocalRow(target)
    ensures InSubtree(s, node.path, r) <==> InScope(r, s) && IdsOf(node.path) <= IdsOf(r.path)
    ensures RewriteRow(r, s, node, target) == if InSubtree(s, node.path, r) then MovedRow(r, node, target) else r
    ensures LocalRow(RewriteRow(r, s, node, target))
    ensures InSubtree(s, node.path, r) ==>
              IdsOf(RewriteRow(r, s, node, target).path) == IdsOf(target.path) + [node.id]
                + IdsOf(r.path)[|IdsOf(node.path)|..]
  {
    hide InSubtree, IsPath, IdsOf, PathOf, IsUnitId, LocalRow;
    SubtreeIff(r, s, node);
    if InSubtree(s, node.path, r) {
      var ids := MovedIds(r, node, target);
      RowIds(r);
      RowIds(node);
      RowIds(target);
      MovedIdsOk(r, node, target);
      CutPath(IdsOf(node.path), IdsOf(r.path), IdsOf(target.path), node.id);
      IdsOfPath(ids);
      LocalFromIds(RewriteRow(r, s, node, target), ids);
    }
  }

  /** The rows of the two statements, before uniqueness is looked at. */
  function BothStatements(t: Table, s: Scope, node: UnitRow, target: UnitRow): Table {
    Rewrite(Repoint(t, s, node, target), s, node, target)
  }

  lemma RepointLocal(t: Table, s: Scope, node: UnitRow, target: UnitRow)
    requires Local(t) && LocalRow(node) && LocalRow(target)
    ensures Local(Repoint(t, s, node, target))
  {
    RowIds(node);
    RowIds(target);
    AppendId(IdsOf(target.path), node.id);
  }

  lemma BothStatementsLocal(t: Table, s: Scope, node: UnitRow, target: UnitRow)
    requires Local(t) && LocalRow(node) && LocalRow(target)
    ensures Local(BothStatements(t, s, node, target))
  {
    RepointLocal(t, s, node, target);
    var t1 := Repoint(t, s, node, target);
    forall id | id in t1
      ensures LocalRow(RewriteRow(t1[id], s, node, target))
    {
      RewriteRowIds(t1[id], s, node, target);
    }
  }

  /**
   * Statement 2 re-roots every row of the subtree exactly once: it skips the node that statement 1 already moved,
   * and when it does match it (a move to the present parent) it writes the same row again.
   */
  lemma MoveReroots(t: Table, s: Scope, node: UnitRow, target: UnitRow)
    requires Local(t) && LocalRow(node) && LocalRow(target)
    requires StillAt(t, s, node) && !IntoOwnSubtree(node, target)
    ensures BothStatements(t, s, node, target) == Rerooted(t, s, node, target)
  {
    forall id | id in t
      ensures BothStatements(t, s, node, target)[id] == Rerooted(t, s, node, target)[id]
    {
      if id == node.id {
        MovedNode(t, s, node, target);
      } else {
        RewriteRowIds(t[id], s, node, target);
      }
    }
  }

  lemma OutsideOwnSubtree(node: UnitRow, target: UnitRow)
    requires LocalRow(node) && LocalRow(target)
    ensures IntoOwnSubtree(node, target) <==> IdsOf(node.path) <= IdsOf(target.path) || target.id == node.id
    ensures IdsOf(node.path) == IdsOf(target.path) ==> node.id == target.id
  {
    RowIds(node);
    RowIds(target);
    PrefixIffIds(IdsOf(node.path), IdsOf(target.path));
  }

  lemma MovedNode(t: Table, s: Scope, node: UnitRow, target: UnitRow)
    requires Local(t) && LocalRow(node) && LocalRow(target)
    requires StillAt(t, s, node) && !IntoOwnSubtree(node, target)
    ensures BothStatements(t, s, node, target)[node.id] == Rerooted(t, s, node, target)[node.id]
    ensures Rerooted(t, s, node, target)[node.id].path == target.path + "/" + node.id
    ensures Rerooted(t, s, node, target)[node.id].parentUnitId == Some(target.id)
  {
    hide PathOf, RewriteRow, IdsOf, IsPath, LocalRow, IsUnitId;
    var a, c := IdsOf(node.path), IdsOf(target.path);
    RepointLocal(t, s, node, target);
    assert LocalRow(Repoint(t, s, node, target)[node.id]) && LocalRow(t[node.id]);
    RowIds(t[node.id]);
    var r := Repoint(t, s, node, target)[node.id];
    RowIds(node);
    RowIds(target);
    AppendId(c, node.id);
    OutsideOwnSubtree(node, target);
    PrefixOfAppended(a, c, node.id);
    assert a[|a|..] == [];
    assert c + [node.id] + [] == c + [node.id];
    RewriteRowIds(r, s, node, target);
  }

  /** From a linked table and a target that is where it was read, the moved table is linked. */
  lemma RerootedLinked(t: Table, s: Scope, node: UnitRow, target: UnitRow)
    requires Linked(t) && LocalRow(node) && LocalRow(target)
    requires StillAt(t, s, node) && !IntoOwnSubtree(node, target)
    requires target.id in t && InScope(t[target.id], s) && t[target.id].path == target.path
    ensures Linked(Rerooted(t, s, node, target))
  {
    MoveReroots(t, s, node, target);
    BothStatementsLocal(t, s, node, target);
    var t' := Rerooted(t, s, node, target);
    forall id | id in t'
      ensures LinkedRow(t', t'[id])
    {
      if id == node.id {
        MovedNode(t, s, node, target);
        OutsideOwnSubtree(node, target);
        assert t'[target.id] == t[target.id];
      } else if t[id].parentUnitId.None? {
        RerootedRootLinked(t, s, node, target, id);
      } else {
        RerootedChildLinked(t, s, node, target, id);
      }
    }
  }

  lemma RerootedRootLinked(t: Table, s: Scope, node: UnitRow, target: UnitRow, id: string)
    requires Linked(t) && LocalRow(node) && LocalRow(target) && StillAt(t, s, node)
    requires id in t && id != node.id && t[id].parentUnitId.None?
    ensures LinkedRow(Rerooted(t, s, node, target), Rerooted(t, s, node, target)[id])
  {
    assert LinkedRow(t, t[id]);
    RowIds(node);
    RootIds(t, id);
    PrefixOfAppended(IdsOf(node.path), [], id);
    assert [] + [id] == [id];
  }

  /** A child moves along with its parent. */
  lemma MovedChild(r: UnitRow, up: UnitRow, node: UnitRow, target: UnitRow)
    requires LocalRow(r) && LocalRow(up) && LocalRow(node) && LocalRow(target)
    requires IdsOf(node.path) <= IdsOf(up.path) && IdsOf(r.path) == IdsOf(up.path) + [r.id]
    ensures IdsOf(node.path) <= IdsOf(r.path)
    ensures MovedRow(r, node, target).path == MovedRow(up, node, target).path + "/" + r.id
  {
    hide IdsOf, PathOf, LocalRow, IsUnitId;
    var a, b, c := IdsOf(node.path), IdsOf(r.path), IdsOf(up.path);
    RowIds(r);
    MovedIdsOk(up, node, target);
    assert b[|a|..] == c[|a|..] + [r.id];
    AppendId(MovedIds(up, node, target), r.id);
    assert MovedIds(r, node, target) == MovedIds(up, node, target) + [r.id];
  }

  lemma RerootedChildLinked(t: Table, s: Scope, node: UnitRow, target: UnitRow, id: string)
    requires Linked(t) && LocalRow(node) && LocalRow(target) && StillAt(t, s, node)
    requires id in t && id != node.id && t[id].parentUnitId.Some?
    ensures LinkedRow(Rerooted(t, s, node, target), Rerooted(t, s, node, target)[id])
  {
    var p := t[id].parentUnitId.value;
    assert LinkedRow(t, t[id]) && LocalRow(t[id]) && LocalRow(t[p]) && t[id].id == id;
    hide Linked, Local, PathOf, IdsOf, LocalRow, IsUnitId, MovedRow, Rerooted;
    RowIds(node);
    ParentIds(t, id);
    RerootedAt(t, s, node, target, id);
    RerootedAt(t, s, node, target, p);
    if IdsOf(node.path) <= IdsOf(t[p].path) {
      MovedChild(t[id], t[p], node, target);
      MovedColumns(t[id], node, target);
      MovedColumns(t[p], node, target);
    } else {
      PrefixOfAppended(IdsOf(node.path), IdsOf(t[p].path), id);
    }
  }

  lemma RerootedAt(t: Table, s: Scope, node: UnitRow, target: UnitRow, id: string)
    requires id in t
    ensures var t' := Rerooted(t, s, node, target);
            id in t' && (!(InScope(t[id], s) && IdsOf(node.path) <= IdsOf(t[id].path)) ==> t'[id] == t[id])
            && (InScope(t[id], s) && IdsOf(node.path) <= IdsOf(t[id].path) ==>
                  t'[id] == MovedRow(t[id], node, target).(parentUnitId := t'[id].parentUnitId)
                  && (id != node.id ==> t'[id].parentUnitId == t[id].parentUnitId))
  {
  }

  lemma MovedColumns(r: UnitRow, node: UnitRow, target: UnitRow)
    requires IdsOf(node.path) <= IdsOf(r.path)
    ensures var m := MovedRow(r, node, target); m.id == r.id && m.parentUnitId == r.parentUnitId && SameScope(m, r)
  {
  }

  lemma RerootedDepth(t: Table, s: Scope, node: UnitRow, target: UnitRow, id: string)
    requires Local(t) && LocalRow(node) && LocalRow(target) && id in t
    ensures Rerooted(t, s, node, target)[id].depth ==
            (if InSubtree(s, node.path, t[id]) then t[id].depth + (target.depth + 1 - node.depth) else t[id].depth)
  {
    RowIds(node);
    RowIds(t[id]);
    GlobIffIds(IdsOf(node.path), IdsOf(t[id].path));
  }

  // ---------------------------------------------------------------- every operation keeps the forest

  lemma NewRowLocal(s: Scope, parent: Option<UnitRow>, id: string, slug: string, manager: Option<string>)
    requires IsUnitId(id) && (parent.Some? ==> LocalRow(parent.value))
    ensures LocalRow(NewRow(s, parent, id, slug, manager))
  {
    RootPath(id);
    if parent.Some? {
      RowIds(parent.value);
      AppendId(IdsOf(parent.value.path), id);
    }
  }

  lemma CreateKeepsForest(t: Table, s: Scope, parent: Option<UnitRow>, id: string, slug: string,
      manager: Option<string>)
    requires Forest(t) && IsUnitId(id)
    requires parent.Some? ==> LocalRow(parent.value) && (parent.value.id in t ==> InScope(t[parent.value.id], s))
    ensures Forest(CreateUnder(t, s, parent, id, slug, manager).0)
  {
    var t' := CreateUnder(t, s, parent, id, slug, manager).0;
    if t' != t {
      NewRowLocal(s, parent, id, slug, manager);
      forall x | x in t'
        ensures LinkedRow(t', t'[x]) && ActiveRow(t', t'[x])
      {
        assert x in t ==> LinkedRow(t, t[x]) && ActiveRow(t, t[x]);
      }
    }
  }

  lemma MoveKeepsForest(t: Table, s: Scope, unit: string, parentId: string)
    requires Forest(t)
    ensures Forest(Exec(t, MoveUnit(s, unit, parentId)).0)
  {
    var t' := Exec(t, MoveUnit(s, unit, parentId)).0;
    if t' != t {
      var node, target := t[unit], t[parentId];
      MoveReroots(t, s, node, target);
      RerootedLinked(t, s, node, target);
      RerootedActive(t, s, node, target);
      forall id | id in t'
        ensures t'[id].depth <= MAX_DEPTH
      {
        RerootedDepth(t, s, node, target, id);
      }
    }
  }

  /** A move keeps active units under active units exactly when the target is active or the moved unit is not. */
  lemma RerootedActive(t: Table, s: Scope, node: UnitRow, target: UnitRow)
    requires ActiveClosed(t) && StillAt(t, s, node) && target.id in t
    ensures ActiveClosed(Rerooted(t, s, node, target)) <==>
            t[node.id].status.Active? && InScope(t[node.id], s) ==> t[target.id].status.Active?
  {
    var t' := Rerooted(t, s, node, target);
    forall id | id in t' && id != node.id
      ensures ActiveRow(t', t'[id])
    {
      assert ActiveRow(t, t[id]);
    }
    assert ActiveClosed(t') <==> ActiveRow(t', t'[node.id]);
  }

  /** The columns the tree is made of. */
  predicate SameShape(a: UnitRow, b: UnitRow) {
    a.id == b.id && SameScope(a, b) && a.parentUnitId == b.parentUnitId && a.path == b.path && a.depth == b.depth
  }

  lemma OneRowLinked(t: Table, id: string, row: UnitRow)
    requires Linked(t) && id in t && SameShape(t[id], row)
    ensures Linked(t[id := row])
  {
    hide IsPath, IdsOf;
    var t' := t[id := row];
    forall x | x in t'
      ensures LinkedRow(t', t'[x]) && LocalRow(t'[x])
    {
      assert LinkedRow(t, t[x]) && LocalRow(t[x]);
    }
  }

  lemma OneRowUnique(t: Table, id: string, row: UnitRow)
    requires UniqueIndexes(t) && id in t && SameShape(t[id], row) && row.slug == t[id].slug
    ensures UniqueIndexes(t[id := row])
  {
    var t' := t[id := row];
    forall a, b | a in t' && b in t' && a != b
      ensures !SlugClash(t'[a], t'[b]) && !PathClash(t'[a], t'[b])
    {
      assert !SlugClash(t[a], t[b]) && !PathClash(t[a], t[b]);
    }
  }

  lemma OneRowSameShape(t: Table, id: string, row: UnitRow)
    requires Forest(t) && id in t && SameShape(t[id], row)
    ensures Linked(t[id := row]) && DepthBounded(t[id := row])
    ensures row.status == t[id].status ==> ActiveClosed(t[id := row])
    ensures row.slug == t[id].slug ==> UniqueIndexes(t[id := row])
  {
    hide Linked, UniqueIndexes;
    OneRowLinked(t, id, row);
    if row.slug == t[id].slug { OneRowUnique(t, id, row); }
    var t' := t[id := row];
    forall x | x in t
      ensures row.status == t[id].status ==> ActiveRow(t', t'[x])
    {
      assert ActiveRow(t, t[x]);
    }
  }

  lemma ArchiveKeepsForest(t: Table, s: Scope, unit: string)
    requires Forest(t)
    ensures Forest(Exec(t, ArchiveUnit(s, unit)).0)
  {
    var t' := Exec(t, ArchiveUnit(s, unit)).0;
    if t' != t {
      OneRowSameShape(t, unit, t'[unit]);
      forall id | id in t'
        ensures ActiveRow(t', t'[id])
      {
        assert LinkedRow(t, t[id]) && ActiveRow(t, t[id]);

      }
    }
  }

  lemma UpdateKeepsForest(t: Table, s: Scope, unit: string, p: Patch)
    requires Forest(t)
    ensures Forest(Exec(t, UpdateUnit(s, unit, p)).0)
  {
    var t' := Exec(t, UpdateUnit(s, unit, p)).0;
    if t' != t {
      OneRowSameShape(t, unit, t'[unit]);
    }
  }

  lemma ExecKeepsForest(t: Table, op: Op)
    requires Forest(t) && WellTyped(op)
    ensures Forest(Exec(t, op).0)
  {
    match op
    case CreateUnit(s, parent, id, slug, manager) =>
      if parent.None? || FindActive(t, s, parent.value).Some? {
        CreateKeepsForest(t, s, if parent.Some? then FindActive(t, s, parent.value) else None, id, slug, manager);
      }
    case MoveUnit(s, unit, parentId) => MoveKeepsForest(t, s, unit, parentId);
    case ArchiveUnit(s, unit) => ArchiveKeepsForest(t, s, unit);
    case UpdateUnit(s, unit, patch) => UpdateKeepsForest(t, s, unit, patch);
  }

  /** Over every run of whole operations the table stays a forest. */
  lemma {:induction false} RunKeepsForest(t: Table, ops: seq<Op>)
    requires Forest(t) && forall op :: op in ops ==> WellTyped(op)
    ensures Forest(Run(t, ops))
    decreases |ops|
  {
    if ops != [] {
      ExecKeepsForest(t, ops[0]);
      RunKeepsForest(Exec(t, ops[0]).0, ops[1..]);
    }
  }

  /** A row of the organisation. */
  ghost predicate Has(t: Table, s: Scope, id: string) {
    id in t && t[id].tenantId == s.tenantId && t[id].orgId == s.orgId
  }

  ghost predicate HasActive(t: Table, s: Scope, id: string) {
    Has(t, s, id) && t[id].status == Active
  }

  /** A sibling-to-be carries the slug: another row of the organisation under this parent. */
  ghost predicate SlugTaken(t: Table, s: Scope, parent: string, slug: string, except: string) {
    exists y :: y in t && y != except && Has(t, s, y) && t[y].parentUnitId == Some(parent) && t[y].slug == slug
  }

  /** Every descendant goes along by the same number of levels; only the unit itself gets a new parent. */
  ghost predicate MovedAlong(t: Table, t': Table, unit: string, parentId: string, delta: int) {
    && t'.Keys == t.Keys
    && forall y :: y in t ==>
         t'[y] == if !AncestorOrSelf(t, unit, y) then t[y]
                  else t[y].(path := t'[y].path, depth := t[y].depth + delta,
                             parentUnitId := if y == unit then Some(parentId) else t[y].parentUnitId)
  }

  /** Some descendant would end below the depth limit. */
  ghost predicate TooDeep(t: Table, unit: string, delta: int) {
    exists y :: y in t && AncestorOrSelf(t, unit, y) && t[y].depth + delta > MAX_DEPTH
  }

  /**
   * A move of a forest fails without a trace, or moves exactly the descendants of the unit under the target. Which
   * error it reports, and when it reports none, is given for every input.
   */
  lemma MoveOutcome(t: Table, s: Scope, unit: string, parentId: string)
    requires Forest(t)
    ensures var (t', r) := Exec(t, MoveUnit(s, unit, parentId));
            && (r == Err(NotFound) <==> !(Has(t, s, unit) && HasActive(t, s, parentId)))
            && (r.Err? ==> t' == t && r.error != AlreadyExists)
            && (Has(t, s, unit) && HasActive(t, s, parentId) ==>
                  var delta := t[parentId].depth + 1 - t[unit].depth;
                  && (r == Err(Conflict) <==> AncestorOrSelf(t, unit, parentId))
                  && (r == Err(DepthLimit) <==> !AncestorOrSelf(t, unit, parentId) && TooDeep(t, unit, delta))
                  && (r == Err(Uncaught) <==>
                        && !AncestorOrSelf(t, unit, parentId) && !TooDeep(t, unit, delta)
                        && SlugTaken(t, s, parentId, t[unit].slug, unit))
                  && (r.Ok? ==> r.value == t'[unit] && MovedAlong(t, t', unit, parentId, delta)))
  {
    if Has(t, s, unit) && HasActive(t, s, parentId) {
      hide Exec, Forest, SlugTaken, TooDeep;
      MoveFound(t, s, unit, parentId);
      RerootedAlong(t, s, unit, parentId);
      hide MovedAlong, Rerooted;
    }
  }

  lemma MoveFound(t: Table, s: Scope, unit: string, parentId: string)
    requires Forest(t) && Has(t, s, unit) && HasActive(t, s, parentId)
    ensures var (t', r) := Exec(t, MoveUnit(s, unit, parentId));
            var delta := t[parentId].depth + 1 - t[unit].depth;
            && r != Err(NotFound) && r != Err(AlreadyExists) && (r.Err? ==> t' == t)
            && (r == Err(Conflict) <==> AncestorOrSelf(t, unit, parentId))
            && (r == Err(DepthLimit) <==> !AncestorOrSelf(t, unit, parentId) && TooDeep(t, unit, delta))
            && (r == Err(Uncaught) <==>
                  && !AncestorOrSelf(t, unit, parentId) && !TooDeep(t, unit, delta)
                  && SlugTaken(t, s, parentId, t[unit].slug, unit))
            && (r.Ok? ==> t' == Rerooted(t, s, t[unit], t[parentId]) && r.value == t'[unit])
  {
    var node, target := t[unit], t[parentId];
    GlobIffDescendant(t, unit, parentId);
    OutsideOwnSubtree(node, target);
    SelfIsAncestor(t, unit);
    forall y | y in t
      ensures InSubtree(s, node.path, t[y]) <==> AncestorOrSelf(t, unit, y)
    {
      GlobIffDescendant(t, unit, y);
    }
    if !IntoOwnSubtree(node, target) {
      MoveReroots(t, s, node, target);
      MoveRollback(t, s, node, target);
    }
  }

  lemma RerootedAlong(t: Table, s: Scope, unit: string, parentId: string)
    requires Forest(t) && Has(t, s, unit) && HasActive(t, s, parentId)
    ensures MovedAlong(t, Rerooted(t, s, t[unit], t[parentId]), unit, parentId, t[parentId].depth + 1 - t[unit].depth)
  {
    var node, target := t[unit], t[parentId];
    SelfIsAncestor(t, unit);
    hide IdsOf, IsPath, PathOf, AllIds, UniqueIndexes;
    forall y | y in t
      ensures IdsOf(node.path) <= IdsOf(t[y].path) && InScope(t[y], s) <==> AncestorOrSelf(t, unit, y)
      ensures AncestorOrSelf(t, unit, y) ==>
                |MovedIds(t[y], node, target)| == t[y].depth + target.depth + 1 - node.depth
    {
      GlobIffDescendant(t, unit, y);
      assert LocalRow(t[y]) && LocalRow(node) && LocalRow(target);
      if AncestorOrSelf(t, unit, y) { MovedIdsOk(t[y], node, target); }
    }
  }

  lemma InsertUnique(t: Table, row: UnitRow)
    requires Local(t) && UniqueIndexes(t) && LocalRow(row) && row.id !in t
    ensures UniqueIndexes(t[row.id := row]) <==> forall y :: y in t ==> !SlugClash(t[y], row)
  {
    var t1 := t[row.id := row];
    if y :| y in t && SlugClash(t[y], row) {
      assert SlugClash(t1[y], t1[row.id]);
    } else {
      forall a, b | a in t1 && b in t1 && a != b
        ensures !SlugClash(t1[a], t1[b]) && !PathClash(t1[a], t1[b])
      {
        PathIndexNeverFires(t1, a, b);
        assert a in t && b in t ==> !SlugClash(t[a], t[b]);
      }
    }
  }

  /** A create fails without a trace, or adds one active leaf under the parent (or one root) and nothing else. */
  lemma CreateOutcome(t: Table, s: Scope, parent: Option<string>, id: string, slug: string, manager: Option<string>)
    requires Forest(t) && IsUnitId(id)
    ensures var (t', r) := Exec(t, CreateUnit(s, parent, id, slug, manager));
            && (r == Err(NotFound) <==> parent.Some? && !HasActive(t, s, parent.value))
            && (r == Err(DepthLimit) <==>
                parent.Some? && HasActive(t, s, parent.value) && t[parent.value].depth >= MAX_DEPTH)
            && (r == Err(AlreadyExists) <==>
                && (parent.Some? ==> HasActive(t, s, parent.value) && t[parent.value].depth < MAX_DEPTH)
                && (id in t || (parent.Some? && SlugTaken(t, s, parent.value, slug, id))))
            && (r.Err? ==> t' == t && (r.error.NotFound? || r.error.DepthLimit? || r.error.AlreadyExists?))
            && (r.Ok? ==>
                && t'.Keys == t.Keys + {id} && (forall y :: y in t ==> t'[y] == t[y])
                && r.value == t'[id] && t'[id].parentUnitId == parent && Has(t', s, id)
                && t'[id].status == Active && t'[id].slug == slug && t'[id].managerUserId == manager)
  {
    var found := if parent.Some? then FindActive(t, s, parent.value) else None;
    if id !in t && (parent.None? || found.Some?) {
      var row := NewRow(s, found, id, slug, manager);
      NewRowLocal(s, found, id, slug, manager);
      InsertUnique(t, row);
      assert forall y :: y in t ==>
        (SlugClash(t[y], row) <==>
          parent.Some? && Has(t, s, y) && t[y].parentUnitId == parent && t[y].slug == slug);
    }
  }

  /** An archive succeeds exactly on an active unit of the scope without active children, and only flips its status. */
  lemma ArchiveOutcome(t: Table, s: Scope, unit: string)
    requires Forest(t)
    ensures var (t', r) := Exec(t, ArchiveUnit(s, unit));
            && (r == Err(Conflict) <==>
                exists c :: c in t && Has(t, s, c) && t[c].parentUnitId == Some(unit) && t[c].status == Active)
            && (r.Ok? <==> HasActive(t, s, unit) && forall c :: c in t && t[c].parentUnitId == Some(unit) ==>
              t[c].status == Archived)
            && (r.Err? ==> t' == t && (r.error.Conflict? || r.error.NotFound?))
            && (r.Ok? ==> t' == t[unit := t[unit].(status := Archived)] && r.value == t'[unit])
  {
    if HasActive(t, s, unit) {
      forall c | c in t && t[c].parentUnitId == Some(unit)
        ensures Has(t, s, c)
      {
        assert LinkedRow(t, t[c]);
      }
    }
  }

  /**
   * An update fails without a trace, on a unit the organisation does not have or on a slug that a sibling carries, or
   * it sets exactly the fields of the patch.
   */
  lemma UpdateOutcome(t: Table, s: Scope, unit: string, p: Patch)
    requires Forest(t)
    ensures var (t', r) := Exec(t, UpdateUnit(s, unit, p));
            && (r == Err(NotFound) <==> !Has(t, s, unit))
            && (r == Err(AlreadyExists) <==>
                && Has(t, s, unit) && p.slug.Some? && t[unit].parentUnitId.Some?
                && SlugTaken(t, s, t[unit].parentUnitId.value, p.slug.value, unit))
            && (r.Err? ==> t' == t && (r.error.NotFound? || r.error.AlreadyExists?))
            && (r.Ok? ==>
                && t'.Keys == t.Keys && (forall y :: y in t && y != unit ==> t'[y] == t[y]) && r.value == t'[unit]
                && t'[unit].slug == (if p.slug.Some? then p.slug.value else t[unit].slug)
                && t'[unit].managerUserId == (if p.manager.Some? then p.manager.value else t[unit].managerUserId)
                && t'[unit] == t[unit].(slug := t'[unit].slug, managerUserId := t'[unit].managerUserId))
  {
    if Has(t, s, unit) {
      var row := t[unit].(slug := if p.slug.Some? then p.slug.value else t[unit].slug,
                          managerUserId := if p.manager.Some? then p.manager.value else t[unit].managerUserId);
      assert LocalRow(t[unit]);
      ChangedUnique(t, row);
      forall y | y in t && y != unit
        ensures SlugClash(t[y], row) <==>
                  Has(t, s, y) && row.parentUnitId.Some? && t[y].parentUnitId == row.parentUnitId
                    && t[y].slug == row.slug
        ensures p.slug.None? ==> !SlugClash(t[y], row)
      {
        assert !SlugClash(t[y], t[unit]);
      }
    }
  }

  /** A row whose slug changed collides with its siblings only. */
  lemma ChangedUnique(t: Table, row: UnitRow)
    requires Local(t) && UniqueIndexes(t) && row.id in t && LocalRow(row)
    ensures UniqueIndexes(t[row.id := row]) <==> forall y :: y in t && y != row.id ==> !SlugClash(t[y], row)
  {
    var t1 := t[row.id := row];
    if y :| y in t && y != row.id && SlugClash(t[y], row) {
      assert SlugClash(t1[y], t1[row.id]);
    } else {
      forall a, b | a in t1 && b in t1 && a != b
        ensures !SlugClash(t1[a], t1[b]) && !PathClash(t1[a], t1[b])
      {
        PathIndexNeverFires(t1, a, b);
        assert !SlugClash(t[a], t[b]);
      }
    }
  }

  lemma SelfIsAncestor(t: Table, x: string)
    ensures AncestorOrSelf(t, x, x)
  {
    assert Climbs(t, x, x, 0);
  }

  /** Only a sibling with the same slug under the target can roll a move back. */
  lemma MoveRollback(t: Table, s: Scope, node: UnitRow, target: UnitRow)
    requires Local(t) && UniqueIndexes(t) && LocalRow(node) && LocalRow(target)
    requires StillAt(t, s, node)
    ensures MoveBatch(t, s, node, target).None? <==>
            exists y :: y in t && y != node.id && SlugClash(t[y], Repoint(t, s, node, target)[node.id])
  {
    var t1 := Repoint(t, s, node, target);
    var t2 := BothStatements(t, s, node, target);
    RepointLocal(t, s, node, target);
    BothStatementsLocal(t, s, node, target);
    if y :| y in t && y != node.id && SlugClash(t[y], t1[node.id]) {
      assert SlugClash(t1[y], t1[node.id]);
    } else {
      forall x, y | x in t1 && y in t1 && x != y
        ensures !SlugClash(t1[x], t1[y]) && !PathClash(t1[x], t1[y])
        ensures !SlugClash(t2[x], t2[y]) && !PathClash(t2[x], t2[y])
      {
        PathIndexNeverFires(t1, x, y);
        PathIndexNeverFires(t2, x, y);
        assert !SlugClash(t[x], t[y]);
      }
    }
  }

  // ---------------------------------------------------------------- the service over a mutable table

  class OrgUnitTable {
    var rows: Table

    constructor ()
      ensures rows == map[] && Forest(rows)
    {
      rows := map[];
    }

    method CreateUnit(s: Scope, parentUnitId: Option<string>, id: string, slug: string, manager: Option<string>)
        returns (r: Outcome)
      requires Forest(rows) && IsUnitId(id)
      modifies this
      ensures Forest(rows)
      ensures (rows, r) == Exec(old(rows), Op.CreateUnit(s, parentUnitId, id, slug, manager))
    {
      ExecKeepsForest(rows, Op.CreateUnit(s, parentUnitId, id, slug, manager));
      var parent: Option<UnitRow> := None;
      if parentUnitId.Some? {
        parent := FindActive(rows, s, parentUnitId.value);
        if parent.None? { return Err(NotFound); }
      }
      var depth := if parent.Some? then parent.value.depth + 1 else 1;
      if depth > MAX_DEPTH { return Err(DepthLimit); }
      var row := NewRow(s, parent, id, slug, manager);
      if parent.Some? && !ParentCurrent(rows, s, parent.value) { return Err(Conflict); }
      var inserted := Insert(rows, row);
      if inserted.None? { return Err(AlreadyExists); }
      rows := inserted.value;
      r := Ok(row);
    }

    /** The reduce over the rows read under the node: the deepest depth among them, at least the node's own. */
    method SubtreeMaxDepth(s: Scope, node: UnitRow) returns (deepest: int)
      ensures deepest >= node.depth
      ensures forall id :: id in rows && InSubtree(s, node.path, rows[id]) ==> rows[id].depth <= deepest
      ensures deepest == node.depth
              || exists id :: id in rows && InSubtree(s, node.path, rows[id]) && rows[id].depth == deepest
    {
      deepest := node.depth;
      var todo := set id | id in rows && InSubtree(s, node.path, rows[id]);
      while todo != {}
        invariant todo <= rows.Keys
        invariant deepest >= node.depth
        invariant forall id :: id in rows && InSubtree(s, node.path, rows[id]) && id !in todo ==>
                    rows[id].depth <= deepest
        invariant forall id :: id in todo ==> InSubtree(s, node.path, rows[id])
        invariant deepest == node.depth
                  || exists id :: id in rows && InSubtree(s, node.path, rows[id]) && rows[id].depth == deepest
        decreases |todo|
      {
        var id :| id in todo;
        if rows[id].depth > deepest { deepest := rows[id].depth; }
        todo := todo - {id};
      }
    }

    method MoveUnit(s: Scope, unitId: string, parentUnitId: string) returns (r: Outcome)
      requires Forest(rows)
      modifies this
      ensures Forest(rows)
      ensures (rows, r) == Exec(old(rows), Op.MoveUnit(s, unitId, parentUnitId))
    {
      ExecKeepsForest(rows, Op.MoveUnit(s, unitId, parentUnitId));
      var node := Find(rows, s, unitId);
      if node.None? { return Err(NotFound); }
      var target := FindActive(rows, s, parentUnitId);
      if target.None? { return Err(NotFound); }
      if IntoOwnSubtree(node.value, target.value) { return Err(Conflict); }
      var subtreeMaxDepth := SubtreeMaxDepth(s, node.value);
      var depthDelta := Delta(node.value, target.value);
      if subtreeMaxDepth + depthDelta > MAX_DEPTH { return Err(DepthLimit); }
      var changed := StillAt(rows, s, node.value);
      var committed := MoveBatch(rows, s, node.value, target.value);
      if committed.None? { return Err(Uncaught); }
      rows := committed.value;
      if !changed { return Err(Conflict); }
      var moved := Find(rows, s, node.value.id);
      if moved.None? { return Err(NotFound); }
      r := Ok(moved.value);
    }

    method UpdateUnit(s: Scope, unitId: string, patch: Patch) returns (r: Outcome)
      requires Forest(rows)
      modifies this
      ensures Forest(rows)
      ensures (rows, r) == Exec(old(rows), Op.UpdateUnit(s, unitId, patch))
    {
      ExecKeepsForest(rows, Op.UpdateUnit(s, unitId, patch));
      if Find(rows, s, unitId).None? { return Err(NotFound); }
      var row := Patched(rows[unitId], patch);
      if !UniqueIndexes(rows[unitId := row]) { return Err(AlreadyExists); }
      rows := rows[unitId := row];
      r := Ok(row);
    }

    method ArchiveUnit(s: Scope, unitId: string) returns (r: Outcome)
      requires Forest(rows)
      modifies this
      ensures Forest(rows)
      ensures (rows, r) == Exec(old(rows), Op.ArchiveUnit(s, unitId))
    {
      ExecKeepsForest(rows, Op.ArchiveUnit(s, unitId));
      if HasActiveChild(rows, s, unitId) { return Err(Conflict); }
      if FindActive(rows, s, unitId).None? { return Err(NotFound); }
      rows := rows[unitId := rows[unitId].(status := Archived)];
      r := Ok(rows[unitId]);
    }
  }
}
