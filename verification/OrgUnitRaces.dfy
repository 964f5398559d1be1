/**
 * The same operations with their reads and their statements interleaved: each read leaves a snapshot
 * that may be stale by the time the operation's batch runs.
 */
module OrgUnitRaces {
  import opened Text
  import opened UnitPaths
  import opened OrgUnits

  /** An operation in flight, with what it has read so far. */
  datatype Pending =
    | HasNode(s: Scope, node: UnitRow)
    | HasTarget(s: Scope, node: UnitRow, target: UnitRow)
    | MoveReady(s: Scope, node: UnitRow, target: UnitRow, fits: bool)
    | CreateReady(s: Scope, parent: UnitRow)
    | ArchiveReady(s: Scope, unit: string)

  datatype State = State(table: Table, pending: map<nat, Pending>)

  datatype Event =
    | ReadNode(pid: nat, s: Scope, unit: string)
    | ReadTarget(pid: nat, parentId: string)
    | ReadSubtree(pid: nat)
    | CommitMove(pid: nat)
    | ReadParent(pid: nat, s: Scope, parentId: string)
    | CommitCreate(pid: nat, id: string, slug: string, manager: Option<string>)
    | CommitRoot(s: Scope, id: string, slug: string, manager: Option<string>)
    | ReadChildren(pid: nat, s: Scope, unit: string)
    | CommitArchive(pid: nat)
    | CommitUpdate(s: Scope, unit: string, patch: Patch)

  predicate WellTypedEvent(e: Event) {
    (e.CommitCreate? || e.CommitRoot?) ==> IsUnitId(e.id)
  }

  /** One atomic step; an event that is not enabled changes nothing. */
  function Step(st: State, e: Event): State {
    var t, ps := st.table, st.pending;
    match e
    case ReadNode(pid, s, unit) =>
      if pid in ps || Find(t, s, unit).None? then st
      else State(t, ps[pid := HasNode(s, Find(t, s, unit).value)])
    case ReadTarget(pid, parentId) =>
      if pid !in ps || !ps[pid].HasNode? || FindActive(t, ps[pid].s, parentId).None? then st
      else State(t, ps[pid := HasTarget(ps[pid].s, ps[pid].node, FindActive(t, ps[pid].s, parentId).value)])
    case ReadSubtree(pid) =>
      if pid !in ps || !ps[pid].HasTarget? then st
      else
        var p := ps[pid];
        State(t, ps[pid := MoveReady(p.s, p.node, p.target, DepthFits(t, p.s, p.node, Delta(p.node, p.target)))])
    case CommitMove(pid) =>
      if pid !in ps || !ps[pid].MoveReady? then st
      else
        var p := ps[pid];
        State(MoveAfterReads(t, p.s, p.node, p.target, p.fits).0, ps - {pid})
    case ReadParent(pid, s, parentId) =>
      if pid in ps || FindActive(t, s, parentId).None? then st
      else State(t, ps[pid := CreateReady(s, FindActive(t, s, parentId).value)])
    case CommitCreate(pid, id, slug, manager) =>
      if pid !in ps || !ps[pid].CreateReady? then st
      else State(CreateUnder(t, ps[pid].s, Some(ps[pid].parent), id, slug, manager).0, ps - {pid})
    case CommitRoot(s, id, slug, manager) =>
      State(CreateUnder(t, s, None, id, slug, manager).0, ps)
    case ReadChildren(pid, s, unit) =>
      if pid in ps || HasActiveChild(t, s, unit) then st
      else State(t, ps[pid := ArchiveReady(s, unit)])
    case CommitArchive(pid) =>
      if pid !in ps || !ps[pid].ArchiveReady? then st
      else State(Archive(t, ps[pid].s, ps[pid].unit).0, ps - {pid})
    case CommitUpdate(s, unit, patch) =>
      State(Update(t, s, unit, patch).0, ps)
  }

  function RunEvents(st: State, es: seq<Event>): State
    decreases |es|
  {
    if es == [] then st else RunEvents(Step(st, es[0]), es[1..])
  }

  // ---------------------------------------------------------------- what every interleaving keeps

  /** A snapshot names a row that is still there, in the scope it was read in; its path may be stale. */
  // ---------------------------------------------------------------- undisturbed operations

  /** With nothing in between, the reads and the commit of an operation come to the whole operation. */
  lemma WholeMove(st: State, pid: nat, s: Scope, unit: string, parentId: string)
    requires pid !in st.pending && Local(st.table)
    ensures RunEvents(st, [ReadNode(pid, s, unit), ReadTarget(pid, parentId), ReadSubtree(pid), CommitMove(pid)]).table
            == Exec(st.table, MoveUnit(s, unit, parentId)).0
  {
    var es := [ReadNode(pid, s, unit), ReadTarget(pid, parentId), ReadSubtree(pid), CommitMove(pid)];
    RunTwo(st, es);
    RunTwo(Step(Step(st, es[0]), es[1]), es[2..]);
    hide MoveAfterReads, DepthFits;
    assert forall id :: id in st.table ==> st.table[id].id == id;
  }

  lemma RunTwo(st: State, es: seq<Event>)
    requires |es| >= 2
    ensures RunEvents(st, es) == RunEvents(Step(Step(st, es[0]), es[1]), es[2..])
  {
    assert es[1..][1..] == es[2..] && es[1..][0] == es[1];
  }

  lemma WholeCreate(st: State, pid: nat, s: Scope, parent: Option<string>, id: string, slug: string,
      manager: Option<string>)
    requires pid !in st.pending
    ensures RunEvents(st, if parent.Some? then [ReadParent(pid, s, parent.value), CommitCreate(pid, id, slug, manager)]
                          else [CommitRoot(s, id, slug, manager)]).table
            == Exec(st.table, CreateUnit(s, parent, id, slug, manager)).0
  {
    if parent.Some? {
      RunTwo(st, [ReadParent(pid, s, parent.value), CommitCreate(pid, id, slug, manager)]);
    }
    hide CreateUnder;
  }

  lemma WholeArchive(st: State, pid: nat, s: Scope, unit: string)
    requires pid !in st.pending
    ensures RunEvents(st, [ReadChildren(pid, s, unit), CommitArchive(pid)]).table
            == Exec(st.table, ArchiveUnit(s, unit)).0
  {
    RunTwo(st, [ReadChildren(pid, s, unit), CommitArchive(pid)]);
  }

  lemma WholeUpdate(st: State, s: Scope, unit: string, patch: Patch)
    ensures RunEvents(st, [CommitUpdate(s, unit, patch)]).table == Exec(st.table, UpdateUnit(s, unit, patch)).0
  {
  }

  predicate SnapOk(t: Table, s: Scope, r: UnitRow) {
    LocalRow(r) && r.id in t && InScope(t[r.id], s)
  }

  predicate PendingOk(t: Table, p: Pending) {
    match p
    case HasNode(s, node) => SnapOk(t, s, node)
    case HasTarget(s, node, target) => SnapOk(t, s, node) && SnapOk(t, s, target)
    case MoveReady(s, node, target, _) => SnapOk(t, s, node) && SnapOk(t, s, target)
    case CreateReady(s, parent) => SnapOk(t, s, parent)
    case ArchiveReady(_, _) => true
  }

  /** Depth counts the ids of the path and the last id is the row's own, in the table and in every snapshot. */
  predicate Consistent(st: State) {
    Local(st.table) && forall pid {:trigger PendingOk(st.table, st.pending[pid])} :: pid in st.pending ==>
      PendingOk(st.table, st.pending[pid])
  }

  /** Rows are never deleted and never change tenant or organisation. */
  predicate SameRows(t: Table, t': Table) {
    forall id :: id in t ==> id in t' && SameScope(t[id], t'[id])
  }

  lemma SamePathLocal(a: UnitRow, b: UnitRow)
    requires LocalRow(a) && b.path == a.path && b.depth == a.depth && b.id == a.id
    ensures LocalRow(b)
  {
  }

  lemma UpdateLocal(t: Table, s: Scope, unit: string, p: Patch)
    requires Local(t)
    ensures Local(Update(t, s, unit, p).0) && SameRows(t, Update(t, s, unit, p).0)
  {
    hide UniqueIndexes, LocalRow;
    var t' := Update(t, s, unit, p).0;
    forall id | id in t
      ensures LocalRow(t'[id])
    {
      SamePathLocal(t[id], t'[id]);
    }
  }

  lemma ArchiveLocal(t: Table, s: Scope, unit: string)
    requires Local(t)
    ensures Local(Archive(t, s, unit).0) && SameRows(t, Archive(t, s, unit).0)
  {
    hide LocalRow, HasActiveChild;
    var t' := Archive(t, s, unit).0;
    forall id | id in t
      ensures LocalRow(t'[id])
    {
      SamePathLocal(t[id], t'[id]);
    }
  }

  lemma CreateLocal(t: Table, s: Scope, parent: Option<UnitRow>, id: string, slug: string, manager: Option<string>)
    requires Local(t) && IsUnitId(id) && (parent.Some? ==> LocalRow(parent.value))
    ensures Local(CreateUnder(t, s, parent, id, slug, manager).0)
    ensures SameRows(t, CreateUnder(t, s, parent, id, slug, manager).0)
  {
    var t' := CreateUnder(t, s, parent, id, slug, manager).0;
    NewRowLocal(s, parent, id, slug, manager);
    forall x | x in t'
      ensures LocalRow(t'[x])
    {
      assert x in t ==> LocalRow(t[x]);
    }
  }

  lemma MoveLocal(t: Table, s: Scope, node: UnitRow, target: UnitRow, fits: bool)
    requires Local(t) && LocalRow(node) && LocalRow(target)
    ensures Local(MoveAfterReads(t, s, node, target, fits).0)
    ensures SameRows(t, MoveAfterReads(t, s, node, target, fits).0)
  {
    BothStatementsLocal(t, s, node, target);
  }

  /** A commit: the new table is local with the same rows, and each snapshot still names a row that fits it. */
  lemma SnapshotsStay(st: State, t': Table, ps': map<nat, Pending>)
    requires Consistent(st) && Local(t') && SameRows(st.table, t')
    requires ps'.Keys <= st.pending.Keys && forall pid {:trigger ps'[pid]} :: pid in ps' ==> ps'[pid] == st.pending[pid]
    ensures Consistent(State(t', ps'))
  {
    hide LocalRow, IsPath;
    forall pid | pid in ps'
      ensures PendingOk(t', ps'[pid])
    {
      assert PendingOk(st.table, st.pending[pid]);
    }
  }

  /** A read: one snapshot is replaced. */
  lemma SnapshotTaken(st: State, pid: nat, p: Pending)
    requires Consistent(st) && PendingOk(st.table, p)
    ensures Consistent(st.(pending := st.pending[pid := p]))
  {
    hide LocalRow, Local, SnapOk;
    var ps := st.pending[pid := p];
    forall x | x in ps
      ensures PendingOk(st.table, ps[x])
    {
      assert x in st.pending ==> PendingOk(st.table, st.pending[x]);
    }
  }

  lemma ReadConsistent(st: State, e: Event)
    requires Consistent(st) && (e.ReadNode? || e.ReadTarget? || e.ReadSubtree? || e.ReadParent? || e.ReadChildren?)
    ensures Consistent(Step(st, e)) && Step(st, e).table == st.table
  {
    var t, ps := st.table, st.pending;
    var st' := Step(st, e);
    hide Consistent, IsPath, DepthFits, HasActiveChild;
    assert Local(t) && forall pid {:trigger PendingOk(t, ps[pid])} :: pid in ps ==>
      PendingOk(t, ps[pid]) by { ConsistentParts(st); }
    assert e.ReadNode? && e.unit in t ==> LocalRow(t[e.unit]);
    assert (e.ReadTarget? || e.ReadParent?) && e.parentId in t ==> LocalRow(t[e.parentId]);
    assert e.pid in ps ==> PendingOk(t, ps[e.pid]);
    if e.pid in st'.pending {
      SnapshotTaken(st, e.pid, st'.pending[e.pid]);
      assert st' == st.(pending := ps[e.pid := st'.pending[e.pid]]);
    } else {
      SnapshotsStay(st, t, st'.pending);
    }
  }

  lemma ConsistentParts(st: State)
    requires Consistent(st)
    ensures Local(st.table)
    ensures forall pid {:trigger PendingOk(st.table, st.pending[pid])} :: pid in st.pending ==>
              PendingOk(st.table, st.pending[pid])
  {
  }

  lemma StepConsistent(st: State, e: Event)
    requires Consistent(st) && WellTypedEvent(e)
    ensures Consistent(Step(st, e)) && SameRows(st.table, Step(st, e).table)
  {
    var t, ps := st.table, st.pending;
    var st' := Step(st, e);
    ConsistentParts(st);
    hide Consistent, LocalRow, Local, MoveAfterReads, CreateUnder, Archive, Update, DepthFits;
    match e {
      case CommitMove(pid) =>
        if pid in ps && ps[pid].MoveReady? {
          assert PendingOk(t, ps[pid]);
          MoveLocal(t, ps[pid].s, ps[pid].node, ps[pid].target, ps[pid].fits);
        }
        SnapshotsStay(st, st'.table, st'.pending);
      case CommitCreate(pid, id, slug, manager) =>
        if pid in ps && ps[pid].CreateReady? {
          assert PendingOk(t, ps[pid]);
          CreateLocal(t, ps[pid].s, Some(ps[pid].parent), id, slug, manager);
        }
        SnapshotsStay(st, st'.table, st'.pending);
      case CommitRoot(s, id, slug, manager) =>
        CreateLocal(t, s, None, id, slug, manager);
        SnapshotsStay(st, st'.table, st'.pending);
      case CommitArchive(pid) =>
        if pid in ps && ps[pid].ArchiveReady? { ArchiveLocal(t, ps[pid].s, ps[pid].unit); }
        SnapshotsStay(st, st'.table, st'.pending);
      case CommitUpdate(s, unit, patch) =>
        UpdateLocal(t, s, unit, patch);
        SnapshotsStay(st, st'.table, st'.pending);
      case _ => ReadConsistent(st, e);
    }
  }

  /** Under every interleaving of reads and batches, each row's depth counts its path and its path ends in its id. */
  lemma {:induction false} EveryInterleavingConsistent(st: State, es: seq<Event>)
    requires Consistent(st) && forall e :: e in es ==> WellTypedEvent(e)
    ensures Consistent(RunEvents(st, es))
    decreases |es|
  {
    if es != [] {
      StepConsistent(st, es[0]);
      EveryInterleavingConsistent(Step(st, es[0]), es[1..]);
    }
  }

  // ---------------------------------------------------------------- what a late commit reports

  /** The row is in the organisation, at this path. */
  ghost predicate At(t: Table, s: Scope, id: string, path: string) { Has(t, s, id) && t[id].path == path }

  /**
   * What a move reports on any snapshots, however stale: a conflict if the target lay in the node's own subtree or the
   * node has left the path that was read; and success only with the row under the target.
   */
  lemma LateMoveOutcome(t: Table, s: Scope, node: UnitRow, target: UnitRow, fits: bool)
    requires Local(t) && SnapOk(t, s, node) && SnapOk(t, s, target)
    ensures var (t', r) := MoveAfterReads(t, s, node, target, fits);
            var into := target.id == node.id || node.path + "/" <= target.path;
            && (into || !fits ==> t' == t)
            && (into ==> r == Err(Conflict))
            && (!into && !fits ==> r == Err(DepthLimit))
            && (!into && fits && MoveBatch(t, s, node, target).None? ==> r == Err(Uncaught) && t' == t)
            && (!into && fits && MoveBatch(t, s, node, target).Some? ==>
                  && t' == MoveBatch(t, s, node, target).value
                  && (r == Err(Conflict) <==> !At(t, s, node.id, node.path))
                  && (At(t, s, node.id, node.path) ==>
                        r.Ok? && node.id in t' && r.value == t'[node.id] && r.value.parentUnitId == Some(target.id)))
  {
    hide UniqueIndexes, IsPath, IdsOf, Glob;
  }

  /**
   * What a create reports on any snapshot of its parent: a conflict if the parent is archived or has left the path that
   * was read; otherwise a taken id or slug; otherwise the new row, which is all that changes.
   */
  lemma LateCreateOutcome(t: Table, s: Scope, parent: UnitRow, id: string, slug: string, manager: Option<string>)
    requires Local(t) && UniqueIndexes(t) && SnapOk(t, s, parent) && IsUnitId(id)
    ensures var (t', r) := CreateUnder(t, s, Some(parent), id, slug, manager);
            var current := HasActive(t, s, parent.id) && t[parent.id].path == parent.path;
            && (r == Err(DepthLimit) <==> parent.depth >= MAX_DEPTH)
            && (r == Err(Conflict) <==> parent.depth < MAX_DEPTH && !current)
            && (r == Err(AlreadyExists) <==>
                  parent.depth < MAX_DEPTH && current && (id in t || SlugTaken(t, s, parent.id, slug, id)))
            && (r.Err? ==> t' == t && r.error in {DepthLimit, Conflict, AlreadyExists})
            && (r.Ok? ==> t' == t[id := r.value] && r.value.parentUnitId == Some(parent.id) && r.value.status == Active
                          && r.value.depth == parent.depth + 1 && r.value.path == parent.path + "/" + id)
  {
    var row := NewRow(s, Some(parent), id, slug, manager);
    NewRowLocal(s, Some(parent), id, slug, manager);
    if id !in t {
      InsertUnique(t, row);
      assert forall y :: y in t ==>
        (SlugClash(t[y], row) <==> Has(t, s, y) && t[y].parentUnitId == Some(parent.id) && t[y].slug == slug);
    }
  }

  // ---------------------------------------------------------------- a stale move batch

  /** The batch took effect on the node. */
  predicate Moves(t: Table, s: Scope, node: UnitRow, target: UnitRow) {
    !IntoOwnSubtree(node, target) && MoveBatch(t, s, node, target).Some? && StillAt(t, s, node)
  }

  /**
   * From a linked table and an arbitrarily stale snapshot, a batch that takes effect leaves a linked table
   * exactly when the target is still at the path that was read.
   */
  lemma MoveLinkedIff(t: Table, s: Scope, node: UnitRow, target: UnitRow)
    requires Linked(t) && SnapOk(t, s, node) && SnapOk(t, s, target) && Moves(t, s, node, target)
    ensures MoveBatch(t, s, node, target).value == Rerooted(t, s, node, target)
    ensures Linked(MoveBatch(t, s, node, target).value) <==> t[target.id].path == target.path
  {
    MoveReroots(t, s, node, target);
    MovedNode(t, s, node, target);
    var t' := Rerooted(t, s, node, target);
    if t[target.id].path == target.path {
      RerootedLinked(t, s, node, target);
    } else {
      if Linked(t') {
        assert LinkedRow(t', t'[node.id]);
        assert t'[target.id].path + "/" + node.id == target.path + "/" + node.id;
        SuffixCancels(t'[target.id].path, target.path, node.id);
        TargetNotRewrittenBack(t, s, node, target);
      }
    }
  }

  lemma SuffixCancels(a: string, b: string, id: string)
    requires a + "/" + id == b + "/" + id
    ensures a == b
  {
    assert |a| == |b|;
    assert a == (a + "/" + id)[..|a|] && b == (b + "/" + id)[..|b|];
  }

  /** If the re-rooted target sits at the path that was read, it was never moved. */
  lemma TargetNotRewrittenBack(t: Table, s: Scope, node: UnitRow, target: UnitRow)
    requires Local(t) && SnapOk(t, s, node) && SnapOk(t, s, target) && !IntoOwnSubtree(node, target)
    requires Rerooted(t, s, node, target)[target.id].path == target.path
    ensures t[target.id].path == target.path
  {
    hide IsPath, IdsOf, PathOf, LocalRow, Rerooted, IsUnitId;
    assert LocalRow(t[target.id]);
    RowIds(node);
    RowIds(target);
    RowIds(t[target.id]);
    RerootedAt(t, s, node, target, target.id);
    if IdsOf(node.path) <= IdsOf(t[target.id].path) {
      MovedIdsOk(t[target.id], node, target);
      PathLength(MovedIds(t[target.id], node, target));
      PathLength(IdsOf(target.path));
    }
  }

  /**
   * A batch whose first statement matches no row changes a row exactly when another move has already put the node
   * where this one wanted it and some row still lies under the old path.
   */
  lemma MissedMoveChangesIff(t: Table, s: Scope, node: UnitRow, target: UnitRow)
    requires Local(t) && SnapOk(t, s, node) && SnapOk(t, s, target)
    requires !StillAt(t, s, node) && MoveBatch(t, s, node, target).Some?
    ensures MoveBatch(t, s, node, target).value != t <==>
            && node.id in t && t[node.id].tenantId == s.tenantId && t[node.id].parentUnitId == Some(target.id)
            && t[node.id].path == target.path + "/" + node.id
            && exists y :: y in t && InSubtree(s, node.path, t[y])
  {
    var t' := MoveBatch(t, s, node, target).value;
    if Landed(t, s, node, target) {
      forall y | y in t && InSubtree(s, node.path, t[y])
        ensures t'[y] != t[y]
      {
        RewriteChanges(t, s, node, target, y);
      }
    }
  }

  lemma RewriteChanges(t: Table, s: Scope, node: UnitRow, target: UnitRow, y: string)
    requires Local(t) && LocalRow(node) && LocalRow(target) && y in t && InSubtree(s, node.path, t[y])
    requires node.path != NewPrefix(node, target)
    ensures RewriteRow(t[y], s, node, target) != t[y]
  {
    assert LocalRow(t[y]);
    RowIds(node);
    RowIds(target);
    RowIds(t[y]);
    AppendId(IdsOf(target.path), node.id);
    RewriteRowIds(t[y], s, node, target);
    var a, b, c := IdsOf(node.path), IdsOf(t[y].path), IdsOf(target.path) + [node.id];
    PrefixesDiffer(a, b, c);
  }

  lemma PrefixesDiffer(a: seq<string>, b: seq<string>, c: seq<string>)
    requires a <= b && a != c
    ensures c + b[|a|..] != b
  {
    if |a| == |c| {
      assert (c + b[|a|..])[..|a|] == c && b[..|a|] == a;
    }
  }

  /** In a linked table a row under a path has that path's last id as an ancestor, and it sits at that path. */
  lemma OwnerOfPath(t: Table, node: UnitRow, y: string)
    requires Linked(t) && LocalRow(node) && y in t && IdsOf(node.path) <= IdsOf(t[y].path)
    ensures node.id in t && t[node.id].path == node.path && SameScope(t[node.id], t[y])
  {
    RowIds(node);
    var a, b := IdsOf(node.path), IdsOf(t[y].path);
    assert b[|a| - 1] == a[|a| - 1] == node.id;
    AncestorAt(t, y, |a| - 1);
    assert LocalRow(t[node.id]);
    RowIds(t[node.id]);
    assert b[..|a|] == a;
  }

  /** From a linked table such a batch changes no row at all. */
  lemma MissedMoveChangesNothing(t: Table, s: Scope, node: UnitRow, target: UnitRow)
    requires Linked(t) && SnapOk(t, s, node) && SnapOk(t, s, target)
    requires !StillAt(t, s, node) && MoveBatch(t, s, node, target).Some?
    ensures MoveBatch(t, s, node, target).value == t
  {
    MissedMoveChangesIff(t, s, node, target);
    forall y | y in t
      ensures !InSubtree(s, node.path, t[y])
    {
      assert LocalRow(t[y]);
      RewriteRowIds(t[y], s, node, target);
      if InSubtree(s, node.path, t[y]) {
        OwnerOfPath(t, node, y);
      }
    }
  }

  /** The freshness that keeps a move's batch sound: if it takes effect, the target is where it was read. */
  predicate Fresh(st: State, e: Event) {
    e.CommitMove? && e.pid in st.pending && st.pending[e.pid].MoveReady? ==>
      var p := st.pending[e.pid];
      Moves(st.table, p.s, p.node, p.target) && p.target.id in st.table ==> st.table[p.target.id].path == p.target.path
  }

  predicate FreshRun(st: State, es: seq<Event>)
    decreases |es|
  {
    es == [] || (Fresh(st, es[0]) && FreshRun(Step(st, es[0]), es[1..]))
  }

  lemma CreateLinked(t: Table, s: Scope, parent: Option<UnitRow>, id: string, slug: string, manager: Option<string>)
    requires Linked(t) && IsUnitId(id) && (parent.Some? ==> SnapOk(t, s, parent.value))
    ensures Linked(CreateUnder(t, s, parent, id, slug, manager).0)
  {
    CreateLocal(t, s, parent, id, slug, manager);
    var t' := CreateUnder(t, s, parent, id, slug, manager).0;
    forall x | x in t'
      ensures LinkedRow(t', t'[x])
    {
      assert x in t ==> LinkedRow(t, t[x]);
    }
  }

  lemma MoveStepLinked(st: State, e: Event)
    requires Consistent(st) && Linked(st.table) && Fresh(st, e)
    requires e.CommitMove? && e.pid in st.pending && st.pending[e.pid].MoveReady?
    ensures Linked(Step(st, e).table)
  {
    hide Linked, LocalRow, Local, IsPath;
    var t, p := st.table, st.pending[e.pid];
    assert PendingOk(t, p);
    if MoveAfterReads(t, p.s, p.node, p.target, p.fits).0 != t {
      if StillAt(t, p.s, p.node) {
        MoveLinkedIff(t, p.s, p.node, p.target);
      } else {
        MissedMoveChangesNothing(t, p.s, p.node, p.target);
      }
    }
  }

  /** Updates and archives leave every column the links are made of. */
  lemma SameShapesLinked(t: Table, t': Table)
    requires Linked(t) && Local(t') && t'.Keys == t.Keys
               && forall id {:trigger SameShape(t[id], t'[id])} :: id in t ==> SameShape(t[id], t'[id])
    ensures Linked(t')
  {
    hide LocalRow;
    forall id | id in t'
      ensures LinkedRow(t', t'[id])
    {
      assert LinkedRow(t, t[id]) && SameShape(t[id], t'[id]);
      if t[id].parentUnitId.Some? { assert SameShape(t[t[id].parentUnitId.value], t'[t[id].parentUnitId.value]); }
    }
  }

  lemma StepLinked(st: State, e: Event)
    requires Consistent(st) && Linked(st.table) && WellTypedEvent(e) && Fresh(st, e)
    ensures Linked(Step(st, e).table)
  {
    StepConsistent(st, e);
    var t, ps := st.table, st.pending;
    ConsistentParts(st);
    ConsistentParts(Step(st, e));
    if e.CommitMove? && e.pid in ps && ps[e.pid].MoveReady? {
      MoveStepLinked(st, e);
    } else {
      hide Linked, LocalRow, Local, Consistent, UniqueIndexes, HasActiveChild, CreateUnder;
      if e.CommitCreate? && e.pid in ps && ps[e.pid].CreateReady? {
        assert PendingOk(t, ps[e.pid]);
        CreateLinked(t, ps[e.pid].s, Some(ps[e.pid].parent), e.id, e.slug, e.manager);
      } else if e.CommitRoot? {
        CreateLinked(t, e.s, None, e.id, e.slug, e.manager);
      } else {
        SameShapesLinked(t, Step(st, e).table);
      }
    }
  }

  /** Over every interleaving in which each effective move still finds its target in place, the table stays linked. */
  lemma {:induction false} FreshInterleavingLinked(st: State, es: seq<Event>)
    requires Consistent(st) && Linked(st.table) && FreshRun(st, es)
    requires forall e :: e in es ==> WellTypedEvent(e)
    ensures Linked(RunEvents(st, es).table)
    decreases |es|
  {
    if es != [] {
      StepConsistent(st, es[0]);
      StepLinked(st, es[0]);
      FreshInterleavingLinked(Step(st, es[0]), es[1..]);
    }
  }

  /** A late move keeps the depth bound exactly when the subtree that is there now, not the one that was read, fits. */
  lemma MoveDepthIff(t: Table, s: Scope, node: UnitRow, target: UnitRow)
    requires Local(t) && DepthBounded(t) && SnapOk(t, s, node) && SnapOk(t, s, target) && Moves(t, s, node, target)
    ensures DepthBounded(MoveBatch(t, s, node, target).value) <==> DepthFits(t, s, node, Delta(node, target))
  {
    MoveReroots(t, s, node, target);
    var t' := Rerooted(t, s, node, target);
    forall id | id in t
      ensures t'[id].depth == if InSubtree(s, node.path, t[id]) then t[id].depth + Delta(node, target) else t[id].depth
    {
      RerootedDepth(t, s, node, target, id);
    }
    assert LocalRow(t[node.id]);
    RowIds(node);
    GlobIffIds(IdsOf(node.path), IdsOf(node.path));
    assert InSubtree(s, node.path, t[node.id]) && t[node.id].depth == node.depth;
    if DepthBounded(t') {
      forall id | id in t && InSubtree(s, node.path, t[id])
        ensures t[id].depth + Delta(node, target) <= MAX_DEPTH
      {
        assert t'[id].depth <= MAX_DEPTH;
      }
    }
  }

  /**
   * A move does not look at the target's status again: a late move keeps active units under active units exactly when
   * the unit is archived or the target is still active.
   */
  lemma MoveActiveIff(t: Table, s: Scope, node: UnitRow, target: UnitRow)
    requires Local(t) && ActiveClosed(t) && SnapOk(t, s, node) && SnapOk(t, s, target) && Moves(t, s, node, target)
    ensures ActiveClosed(MoveBatch(t, s, node, target).value) <==>
              (t[node.id].status.Active? ==> t[target.id].status.Active?)
  {
    hide LocalRow, IsPath, IdsOf;
    MoveReroots(t, s, node, target);
    RerootedActive(t, s, node, target);
  }

  /** What a move batch that takes effect must find for the table to stay a forest. */
  predicate MoveFresh(t: Table, s: Scope, node: UnitRow, target: UnitRow) {
    && target.id in t && node.id in t
    && t[target.id].path == target.path
    && DepthFits(t, s, node, Delta(node, target))
    && (t[node.id].status.Active? ==> t[target.id].status.Active?)
  }

  /**
   * From a forest and an arbitrarily stale snapshot, a batch that takes effect leaves a forest exactly when it finds
   * all three.
   */
  lemma MoveForestIff(t: Table, s: Scope, node: UnitRow, target: UnitRow)
    requires Forest(t) && SnapOk(t, s, node) && SnapOk(t, s, target) && Moves(t, s, node, target)
    ensures Forest(MoveBatch(t, s, node, target).value) <==> MoveFresh(t, s, node, target)
  {
    MoveLinkedIff(t, s, node, target);
    MoveDepthIff(t, s, node, target);
    MoveActiveIff(t, s, node, target);
    BatchUnique(t, s, node, target);
    hide Linked, DepthBounded, ActiveClosed, UniqueIndexes, LocalRow, MoveBatch, DepthFits;
  }

  lemma BatchUnique(t: Table, s: Scope, node: UnitRow, target: UnitRow)
    requires MoveBatch(t, s, node, target).Some?
    ensures UniqueIndexes(MoveBatch(t, s, node, target).value)
  {
    hide UniqueIndexes;
  }

  /** A late archive keeps active units under active units exactly when no active child has appeared. */
  lemma ArchiveActiveIff(t: Table, s: Scope, unit: string)
    requires Linked(t) && ActiveClosed(t) && FindActive(t, s, unit).Some?
    ensures ActiveClosed(Archive(t, s, unit).0) <==> !HasActiveChild(t, s, unit)
  {
    var t' := Archive(t, s, unit).0;
    if HasActiveChild(t, s, unit) {
      var c :| c in t && InScope(t[c], s) && t[c].parentUnitId == Some(unit) && t[c].status.Active?;
      ParentIds(t, c);
      assert c != unit;
      assert !ActiveRow(t', t'[c]);
    } else {
      forall id | id in t'
        ensures ActiveRow(t', t'[id])
      {
        assert LinkedRow(t, t[id]) && ActiveRow(t, t[id]);
      }
    }
  }

  // ---------------------------------------------------------------- steps and runs that keep a forest

  /** Each commit that takes effect finds what its reads found, as far as the forest depends on it. */
  predicate ForestFresh(st: State, e: Event) {
    && (e.CommitMove? && e.pid in st.pending && st.pending[e.pid].MoveReady? ==>
          var p := st.pending[e.pid];
          Moves(st.table, p.s, p.node, p.target) && p.fits ==> MoveFresh(st.table, p.s, p.node, p.target))
    && (e.CommitArchive? && e.pid in st.pending && st.pending[e.pid].ArchiveReady? ==>
          var p := st.pending[e.pid];
          FindActive(st.table, p.s, p.unit).Some? ==> !HasActiveChild(st.table, p.s, p.unit))
  }

  predicate ForestFreshRun(st: State, es: seq<Event>)
    decreases |es|
  {
    es == [] || (ForestFresh(st, es[0]) && ForestFreshRun(Step(st, es[0]), es[1..]))
  }

  lemma MoveStepForest(st: State, e: Event)
    requires Consistent(st) && Forest(st.table)
    requires e.CommitMove? && e.pid in st.pending && st.pending[e.pid].MoveReady?
    ensures Forest(Step(st, e).table) <==> ForestFresh(st, e)
  {
    var t, p := st.table, st.pending[e.pid];
    assert PendingOk(t, p);
    assert Linked(t);
    hide Forest, Linked, LocalRow, Local, IsPath, MoveFresh;
    if Moves(t, p.s, p.node, p.target) {
      MoveForestIff(t, p.s, p.node, p.target);
    } else if MoveAfterReads(t, p.s, p.node, p.target, p.fits).0 != t {
      MissedMoveChangesNothing(t, p.s, p.node, p.target);
    }
  }

  lemma ArchiveStepForest(t: Table, s: Scope, unit: string)
    requires Forest(t)
    ensures Forest(Archive(t, s, unit).0) <==> (FindActive(t, s, unit).Some? ==> !HasActiveChild(t, s, unit))
  {
    if FindActive(t, s, unit).Some? {
      hide Linked, UniqueIndexes, HasActiveChild;
      OneRowSameShape(t, unit, t[unit].(status := Archived));
      ArchiveActiveIff(t, s, unit);
    }
  }

  /** From a forest a step leaves a forest exactly when it is fresh. */
  lemma StepForestIff(st: State, e: Event)
    requires Consistent(st) && Forest(st.table) && WellTypedEvent(e)
    ensures Forest(Step(st, e).table) <==> ForestFresh(st, e)
  {
    var t, ps := st.table, st.pending;
    ConsistentParts(st);
    hide Forest, Local, Consistent, LocalRow, HasActiveChild, MoveAfterReads, CreateUnder, Archive, Update, DepthFits;
    match e {
      case CommitMove(pid) => if pid in ps && ps[pid].MoveReady? { MoveStepForest(st, e); }
      case CommitCreate(pid, id, slug, manager) =>
        if pid in ps && ps[pid].CreateReady? {
          assert PendingOk(t, ps[pid]);
          CreateKeepsForest(t, ps[pid].s, Some(ps[pid].parent), id, slug, manager);
        }
      case CommitRoot(s, id, slug, manager) => CreateKeepsForest(t, s, None, id, slug, manager);
      case CommitArchive(pid) =>
        if pid in ps && ps[pid].ArchiveReady? { ArchiveStepForest(t, ps[pid].s, ps[pid].unit); }
      case CommitUpdate(s, unit, patch) => UpdateKeepsForest(t, s, unit, patch);
      case _ =>
    }
  }

  /** Over every interleaving whose effective commits are fresh in this sense the table stays a whole forest. */
  lemma {:induction false} FreshInterleavingForest(st: State, es: seq<Event>)
    requires Consistent(st) && Forest(st.table) && ForestFreshRun(st, es)
    requires forall e :: e in es ==> WellTypedEvent(e)
    ensures Forest(RunEvents(st, es).table)
    decreases |es|
  {
    hide Consistent, Forest, Step, ForestFresh;
    if es != [] {
      StepConsistent(st, es[0]);
      StepForestIff(st, es[0]);
      FreshInterleavingForest(Step(st, es[0]), es[1..]);
    }
  }
}
