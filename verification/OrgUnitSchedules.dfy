/**
 * What is lost when a commit is not fresh.
 *
 * Schedules of reads and commits, each from any forest of a simple shape:
 * - three moves, of which the last reports a conflict and rewrites a row,
 * - a move under a target archived since it was read,
 * - a move of a unit that got a child since its depth was checked,
 * - an archive of a unit that got a child since its children were read.
 *
 * Forests of those shapes are built by creates at the end.
 */
module OrgUnitSchedules {
  import opened Text
  import opened UnitPaths
  import opened OrgUnits
  import opened OrgUnitRaces

  lemma {:induction false} RunAppend(st: State, es: seq<Event>, e: Event)
    ensures RunEvents(st, es + [e]) == Step(RunEvents(st, es), e)
    decreases |es|
  {
    if es == [] {
      assert [] + [e] == [e];
    } else {
      RunAppend(Step(st, es[0]), es[1..], e);
      assert (es + [e])[1..] == es[1..] + [e];
    }
  }

  /** A forest with three active roots, the first and the last of them childless, and no slug used twice. */
  predicate ThreeRoots(t: Table, s: Scope, x: string, y: string, z: string) {
    && Forest(t) && x != y && y != z && x != z
    && FindActive(t, s, x).Some? && FindActive(t, s, y).Some? && FindActive(t, s, z).Some?
    && t[x].parentUnitId.None? && t[y].parentUnitId.None? && t[z].parentUnitId.None?
    && (forall a :: a in t && a != x ==> IdsOf(t[a].path) != [] && IdsOf(t[a].path)[0] != x)
    && (forall a :: a in t && a != z ==> IdsOf(t[a].path) != [] && IdsOf(t[a].path)[0] != z)
    && (forall a, b :: a in t && b in t && a != b ==> t[a].slug != t[b].slug)
  }

  /** Such a forest exists. */
  lemma ThreeRootsExist(s: Scope, x: string, y: string, z: string)
    requires IsUnitId(x) && IsUnitId(y) && IsUnitId(z) && x != y && y != z && x != z
    ensures ThreeRoots(map[x := NewRow(s, None, x, x, None), y := NewRow(s, None, y, y, None),
              z := NewRow(s, None, z, z, None)], s, x, y, z)
  {
    RootPath(x);
    RootPath(y);
    RootPath(z);
  }

  lemma RootFacts(t: Table, s: Scope, x: string, y: string, z: string)
    requires ThreeRoots(t, s, x, y, z)
    ensures forall a {:trigger SnapOk(t, s, t[a])} :: a in {x, y, z} ==>
              SnapOk(t, s, t[a]) && IdsOf(t[a].path) == [a] && t[a].depth == 1
    ensures !IntoOwnSubtree(t[x], t[y]) && !IntoOwnSubtree(t[z], t[x])
  {
    assert LocalRow(t[x]) && LocalRow(t[y]) && LocalRow(t[z]);
    RootIds(t, x);
    RootIds(t, y);
    RootIds(t, z);
    RowIds(t[x]);
    RowIds(t[y]);
    RowIds(t[z]);
    NotUnder(x, [y]);
    NotUnder(z, [x]);
    OutsideOwnSubtree(t[x], t[y]);
    OutsideOwnSubtree(t[z], t[x]);
  }

  lemma NotUnder(a: string, ids: seq<string>)
    requires ids != [] && ids[0] != a
    ensures !([a] <= ids)
  {
    assert [a][0] == a;
  }

  /** A childless node moves alone. */
  lemma LeafMove(t: Table, s: Scope, node: UnitRow, target: UnitRow)
    requires Local(t) && UniqueIndexes(t) && SnapOk(t, s, node) && SnapOk(t, s, target)
    requires StillAt(t, s, node) && !IntoOwnSubtree(node, target)
    requires forall y :: y in t && y != node.id ==> !(IdsOf(node.path) <= IdsOf(t[y].path))
    requires forall y :: y in t && y != node.id ==> t[y].slug != t[node.id].slug
    ensures Moves(t, s, node, target)
    ensures MoveBatch(t, s, node, target).value == Repoint(t, s, node, target)
  {
    MoveReroots(t, s, node, target);
    MovedNode(t, s, node, target);
    MoveRollback(t, s, node, target);
    RepointLocal(t, s, node, target);
    assert LocalRow(Repoint(t, s, node, target)[node.id]);
    assert LocalRow(Rerooted(t, s, node, target)[node.id]) by {
      BothStatementsLocal(t, s, node, target);
    }
  }

  lemma {:induction false} RunConcat(st: State, a: seq<Event>, b: seq<Event>)
    ensures RunEvents(st, a + b) == RunEvents(RunEvents(st, a), b)
    decreases |a|
  {
    if a == [] {
      assert a + b == b;
    } else {
      RunConcat(Step(st, a[0]), a[1..], b);
      assert (a + b)[1..] == a[1..] + b;
    }
  }

  function MoveReads(pid: nat, s: Scope, n: string, g: string): seq<Event> {
    [ReadNode(pid, s, n), ReadTarget(pid, g), ReadSubtree(pid)]
  }

  lemma MoveReadsTyped(pid: nat, s: Scope, n: string, g: string)
    ensures forall e :: e in MoveReads(pid, s, n, g) ==> WellTypedEvent(e)
  {
  }

  /** The three reads of a move, nothing in between. */
  lemma ReadsOfMove(st: State, pid: nat, s: Scope, n: string, g: string)
    requires pid !in st.pending && FindActive(st.table, s, n).Some? && FindActive(st.table, s, g).Some?
    ensures var node, target := st.table[n], st.table[g];
            RunEvents(st, MoveReads(pid, s, n, g))
            == State(st.table,
              st.pending[pid := MoveReady(s, node, target, DepthFits(st.table, s, node, Delta(node, target)))])
  {
    hide DepthFits;
    var e1, e2, e3 := ReadNode(pid, s, n), ReadTarget(pid, g), ReadSubtree(pid);
    var t, ps := st.table, st.pending;
    var st1 := State(t, ps[pid := HasNode(s, t[n])]);
    var st2 := State(t, ps[pid := HasTarget(s, t[n], t[g])]);
    RunAppend(st, [], e1);
    RunAppend(st, [e1], e2);
    RunAppend(st, [e1, e2], e3);
    assert [] + [e1] == [e1] && [e1] + [e2] == [e1, e2] && [e1, e2] + [e3] == [e1, e2, e3];
    assert RunEvents(st, [e1]) == st1 && RunEvents(st, [e1, e2]) == st2;
  }

  /**
   * The moves of ConflictThatRewrites on the table alone: x below y, then z to x's old path, then the first move again.
   */
  lemma FirstMove(t: Table, s: Scope, x: string, y: string, z: string)
    requires ThreeRoots(t, s, x, y, z)
    ensures StillAt(t, s, t[x]) && MoveBatch(t, s, t[x], t[y]) == Some(Repoint(t, s, t[x], t[y]))
  {
    RootFacts(t, s, x, y, z);
    assert SnapOk(t, s, t[x]) && SnapOk(t, s, t[y]);
    forall a | a in t && a != x
      ensures !(IdsOf(t[x].path) <= IdsOf(t[a].path))
    {
      NotUnder(x, IdsOf(t[a].path));
    }
    LeafMove(t, s, t[x], t[y]);
  }

  /** The ids of a root moved below another root. */
  lemma RepointedIds(t: Table, s: Scope, node: UnitRow, target: UnitRow)
    requires Local(t) && LocalRow(node) && LocalRow(target) && StillAt(t, s, node)
    ensures Local(Repoint(t, s, node, target))
    ensures IdsOf(Repoint(t, s, node, target)[node.id].path) == IdsOf(target.path) + [node.id]
  {
    RepointLocal(t, s, node, target);
    RowIds(node);
    RowIds(target);
    AppendId(IdsOf(target.path), node.id);
  }

  /** After x moved below y, z is still a root that nothing lies under. */
  lemma AfterFirstMove(t: Table, s: Scope, x: string, y: string, z: string)
    requires ThreeRoots(t, s, x, y, z)
    ensures var t1 := Repoint(t, s, t[x], t[y]);
            && Local(t1) && UniqueIndexes(t1) && IdsOf(t1[x].path) == [y, x]
            && t1.Keys == t.Keys && t1[z] == t[z] && (forall a :: a in t ==> t1[a].slug == t[a].slug)
            && (forall a :: a in t1 && a != z ==> !(IdsOf(t[z].path) <= IdsOf(t1[a].path)))
  {
    hide LocalRow, IdsOf, IsPath, ActiveClosed, DepthBounded, UniqueIndexes;
    RootFacts(t, s, x, y, z);
    assert SnapOk(t, s, t[x]) && SnapOk(t, s, t[y]) && SnapOk(t, s, t[z]);
    var t1 := Repoint(t, s, t[x], t[y]);
    RepointedIds(t, s, t[x], t[y]);
    SlugsUnique(t, t1);
    forall a | a in t1 && a != z
      ensures !(IdsOf(t[z].path) <= IdsOf(t1[a].path))
    {
      NotUnder(z, IdsOf(t1[a].path));
    }
  }

  lemma SecondMove(t: Table, s: Scope, x: string, y: string, z: string)
    requires ThreeRoots(t, s, x, y, z)
    ensures var t1 := Repoint(t, s, t[x], t[y]);
            && Local(t1) && IdsOf(t1[x].path) == [y, x]
            && StillAt(t1, s, t[z]) && MoveBatch(t1, s, t[z], t[x]) == Some(Repoint(t1, s, t[z], t[x]))
  {
    RootFacts(t, s, x, y, z);
    assert SnapOk(t, s, t[x]) && SnapOk(t, s, t[z]);
    AfterFirstMove(t, s, x, y, z);
    hide LocalRow, IdsOf, IsPath, Local, Forest, UniqueIndexes, Repoint, MoveBatch, IntoOwnSubtree;
    var t1 := Repoint(t, s, t[x], t[y]);
    FirstMoveScope(t, s, x, y);
    LeafMove(t1, s, t[z], t[x]);
    MovesIsSome(t1, s, t[z], t[x]);
  }

  lemma FirstMoveScope(t: Table, s: Scope, x: string, y: string)
    requires x in t && y in t
    ensures forall a :: a in t && a in Repoint(t, s, t[x], t[y]) ==> SameScope(t[a], Repoint(t, s, t[x], t[y])[a])
  {
  }

  lemma MovesIsSome(t: Table, s: Scope, node: UnitRow, target: UnitRow)
    requires Moves(t, s, node, target)
    ensures StillAt(t, s, node) && MoveBatch(t, s, node, target).Some?
  {
  }

  /** A move whose node already landed reports a conflict, and rewrites whatever still lies under the old path. */
  lemma LandedMove(t: Table, s: Scope, node: UnitRow, target: UnitRow, y: string)
    requires Local(t) && SnapOk(t, s, node) && SnapOk(t, s, target) && !IntoOwnSubtree(node, target)
    requires forall a, b :: a in t && b in t && a != b ==> t[a].slug != t[b].slug
    requires !StillAt(t, s, node) && Landed(t, s, node, target)
    requires y in t && InScope(t[y], s) && IdsOf(node.path) <= IdsOf(t[y].path)
    ensures MoveAfterReads(t, s, node, target, true).1 == Err(Conflict)
    ensures MoveAfterReads(t, s, node, target, true).0 != t
  {
    hide IsPath, Glob, IdsOf, LocalRow, IntoOwnSubtree;
    BothStatementsLocal(t, s, node, target);
    SlugsUnique(t, t);
    SlugsUnique(t, BothStatements(t, s, node, target));
    assert LocalRow(t[y]);
    RewriteRowIds(t[y], s, node, target);
    MissedMoveChangesIff(t, s, node, target);
  }

  lemma ThirdMove(t: Table, s: Scope, x: string, y: string, z: string)
    requires ThreeRoots(t, s, x, y, z)
    ensures var t2 := Repoint(Repoint(t, s, t[x], t[y]), s, t[z], t[x]);
            && MoveAfterReads(t2, s, t[x], t[y], true).1 == Err(Conflict)
            && MoveAfterReads(t2, s, t[x], t[y], true).0 != t2
  {
    hide Glob, IsPath, MoveAfterReads, Forest, IdsOf;
    RootFacts(t, s, x, y, z);
    SecondMove(t, s, x, y, z);
    assert SnapOk(t, s, t[x]) && SnapOk(t, s, t[y]) && SnapOk(t, s, t[z]);
    var t1 := Repoint(t, s, t[x], t[y]);
    var t2 := Repoint(t1, s, t[z], t[x]);
    RepointedIds(t1, s, t[z], t[x]);
    assert [x] <= [x] + [z];
    LandedMove(t2, s, t[x], t[y], z);
  }

  /** Distinct slugs and paths that end in the key satisfy both indexes. */
  lemma SlugsUnique(t: Table, t': Table)
    requires forall a, b :: a in t && b in t && a != b ==> t[a].slug != t[b].slug
    requires Local(t') && t'.Keys == t.Keys && forall a :: a in t ==> t'[a].slug == t[a].slug
    ensures UniqueIndexes(t')
  {
    forall a, b | a in t' && b in t' && a != b
      ensures !SlugClash(t'[a], t'[b]) && !PathClash(t'[a], t'[b])
    {
      PathIndexNeverFires(t', a, b);
    }
  }

  /**
   * Without freshness the no-op fails: three moves over three roots, two of them the same move, reach a state in which
   * the third batch reports a conflict and still rewrites a row.
   */
  lemma ConflictThatRewrites(t: Table, s: Scope, x: string, y: string, z: string) returns (es: seq<Event>)
    requires ThreeRoots(t, s, x, y, z)
    ensures forall e :: e in es ==> WellTypedEvent(e)
    ensures var st := RunEvents(State(t, map[]), es);
            && 3 in st.pending && st.pending[3].MoveReady?
            && var p := st.pending[3];
               MoveAfterReads(st.table, p.s, p.node, p.target, p.fits).1 == Err(Conflict)
               && MoveAfterReads(st.table, p.s, p.node, p.target, p.fits).0 != st.table
  {
    ThirdMove(t, s, x, y, z);
    var st := Scheduled(t, s, x, y, z);
    TwoCommits(st, s, x, y, z);
    es := ScheduleRuns(t, s, x, y, z);
  }

  /** All three moves have read: z to x as move 1, and x to y as moves 2 and 3. */
  function Scheduled(t: Table, s: Scope, x: string, y: string, z: string): State
    requires x in t && y in t && z in t
  {
    var p, q := MoveReady(s, t[z], t[x], true), MoveReady(s, t[x], t[y], true);
    State(t, map[][1 := p][2 := q][3 := q])
  }

  lemma ScheduleRuns(t: Table, s: Scope, x: string, y: string, z: string) returns (es: seq<Event>)
    requires ThreeRoots(t, s, x, y, z)
    ensures forall e :: e in es ==> WellTypedEvent(e)
    ensures RunEvents(State(t, map[]), es) == Step(Step(Scheduled(t, s, x, y, z), CommitMove(2)), CommitMove(1))
  {
    RootsFit(t, s, x, y, z);
    var p, q := MoveReady(s, t[z], t[x], true), MoveReady(s, t[x], t[y], true);
    hide DepthFits, Step, RunEvents, MoveReads, WellTypedEvent;
    var st0 := State(t, map[]);
    var st1 := State(t, map[][1 := p]);
    var st2 := State(t, map[][1 := p][2 := q]);
    var a, b, c := MoveReads(1, s, z, x), MoveReads(2, s, x, y), MoveReads(3, s, x, y);
    MoveReadsTyped(1, s, z, x); MoveReadsTyped(2, s, x, y); MoveReadsTyped(3, s, x, y);
    ReadsOfMove(st0, 1, s, z, x);
    ReadsOfMove(st1, 2, s, x, y);
    ReadsOfMove(st2, 3, s, x, y);
    RunConcat(st0, a, b);
    RunConcat(st0, a + b, c);
    RunAppend(st0, a + b + c, CommitMove(2));
    RunAppend(st0, a + b + c + [CommitMove(2)], CommitMove(1));
    es := a + b + c + [CommitMove(2)] + [CommitMove(1)];
    CommitTyped(2); CommitTyped(1);
  }

  lemma CommitTyped(pid: nat)
    ensures WellTypedEvent(CommitMove(pid))
  {
  }

  lemma RootsFit(t: Table, s: Scope, x: string, y: string, z: string)
    requires ThreeRoots(t, s, x, y, z)
    ensures DepthFits(t, s, t[z], Delta(t[z], t[x])) && DepthFits(t, s, t[x], Delta(t[x], t[y]))
  {
    RootFacts(t, s, x, y, z);
    assert SnapOk(t, s, t[x]) && SnapOk(t, s, t[y]) && SnapOk(t, s, t[z]);
    forall a | a in t
      ensures InSubtree(s, t[z].path, t[a]) ==> a == z
      ensures InSubtree(s, t[x].path, t[a]) ==> a == x
    {
      assert LocalRow(t[a]);
      RewriteRowIds(t[a], s, t[z], t[x]);
      RewriteRowIds(t[a], s, t[x], t[y]);
      if a != z { NotUnder(z, IdsOf(t[a].path)); }
      if a != x { NotUnder(x, IdsOf(t[a].path)); }
    }
  }

  lemma TwoCommits(st: State, s: Scope, x: string, y: string, z: string)
    requires ThreeRoots(st.table, s, x, y, z)
    requires 1 in st.pending && st.pending[1] == MoveReady(s, st.table[z], st.table[x], true)
    requires 2 in st.pending && st.pending[2] == MoveReady(s, st.table[x], st.table[y], true)
    ensures var t := st.table;
            Step(Step(st, CommitMove(2)), CommitMove(1))
            == State(Repoint(Repoint(t, s, t[x], t[y]), s, t[z], t[x]), st.pending - {2} - {1})
  {
    hide MoveBatch, Forest, LocalRow;
    RootFacts(st.table, s, x, y, z);
    FirstMove(st.table, s, x, y, z);
    SecondMove(st.table, s, x, y, z);
  }

  lemma ArchivedRootForest(t: Table, s: Scope, x: string, y: string, z: string)
    requires ThreeRoots(t, s, x, y, z)
    ensures !HasActiveChild(t, s, x) && Forest(Archive(t, s, x).0)
  {
    RootFacts(t, s, x, y, z);
    assert SnapOk(t, s, t[x]);
    forall c | c in t
      ensures t[c].parentUnitId != Some(x)
    {
      assert ([x] + [c])[0] == x && |[x] + [c]| == 2;
      if t[c].parentUnitId == Some(x) { ParentIds(t, c); }
    }
    ArchiveStepForest(t, s, x);
  }

  /** z was read to move below x, x is archived in between, and the move still takes effect. */
  lemma MoveUnderArchived(t: Table, s: Scope, x: string, y: string, z: string)
    requires ThreeRoots(t, s, x, y, z)
    ensures !ActiveClosed(MoveAfterReads(Archive(t, s, x).0, s, t[z], t[x], true).0)
  {
    RootFacts(t, s, x, y, z);
    ArchivedRootForest(t, s, x, y, z);
    var t1 := Archive(t, s, x).0;
    assert SnapOk(t, s, t[x]) && SnapOk(t, s, t[z]);
    hide LocalRow, IsPath, IdsOf, Glob, DepthBounded, HasActiveChild, MoveBatch, IntoOwnSubtree;
    forall a | a in t1 && a != z
      ensures !(IdsOf(t[z].path) <= IdsOf(t1[a].path))
    {
      NotUnder(z, IdsOf(t1[a].path));
    }
    LeafMove(t1, s, t[z], t[x]);
    MovesIsSome(t1, s, t[z], t[x]);
    MoveActiveIff(t1, s, t[z], t[x]);
  }

  lemma ArchiveThenMove(t: Table, s: Scope, x: string, p: Pending)
    requires p.MoveReady? && !HasActiveChild(t, s, x)
    ensures var st := State(t, map[1 := p]);
            var t1 := Archive(t, s, x).0;
            Step(Step(Step(st, ReadChildren(2, s, x)), CommitArchive(2)), CommitMove(1)).table
            == MoveAfterReads(t1, p.s, p.node, p.target, p.fits).0
  {
    hide HasActiveChild, Archive, MoveAfterReads;
    var st := State(t, map[1 := p]);
    var st1 := Step(st, ReadChildren(2, s, x));
    assert st1 == State(t, map[1 := p, 2 := ArchiveReady(s, x)]);
    var st2 := Step(st1, CommitArchive(2));
    assert st2.pending[1] == p && 1 in st2.pending;
  }

  /** Over three roots, a target archived after it was read ends above an active unit. */
  lemma StaleTargetStatus(t: Table, s: Scope, x: string, y: string, z: string) returns (es: seq<Event>)
    requires ThreeRoots(t, s, x, y, z)
    ensures !ActiveClosed(RunEvents(State(t, map[]), es).table)
    ensures forall e :: e in es ==> WellTypedEvent(e)
  {
    RootsFit(t, s, x, y, z);
    ArchivedRootForest(t, s, x, y, z);
    MoveUnderArchived(t, s, x, y, z);
    var st0 := State(t, map[]);
    ReadsOfMove(st0, 1, s, z, x);
    var a := MoveReads(1, s, z, x);
    MoveReadsTyped(1, s, z, x);
    ArchiveThenMove(t, s, x, MoveReady(s, t[z], t[x], true));
    hide MoveReads, MoveAfterReads, Archive, DepthFits, ActiveClosed, HasActiveChild, Step, RunEvents, ThreeRoots,
      Forest;
    es := a + [ReadChildren(2, s, x)] + [CommitArchive(2)] + [CommitMove(1)];
    RunAppend(st0, a, ReadChildren(2, s, x));
    RunAppend(st0, a + [ReadChildren(2, s, x)], CommitArchive(2));
    RunAppend(st0, a + [ReadChildren(2, s, x)] + [CommitArchive(2)], CommitMove(1));
  }

  /** A forest in which an active unit has no active child, room below it, and a slug free. */
  predicate LateBirthSetting(t: Table, s: Scope, u: string, slug: string) {
    && Forest(t) && FindActive(t, s, u).Some? && t[u].depth < MAX_DEPTH && !HasActiveChild(t, s, u)
    && forall y :: y in t ==> t[y].slug != slug
  }

  lemma LateBirth(t: Table, s: Scope, u: string, c: string, slug: string)
    requires LateBirthSetting(t, s, u, slug) && IsUnitId(c) && c !in t
    ensures !ActiveClosed(Archive(CreateUnder(t, s, Some(t[u]), c, slug, None).0, s, u).0)
  {
    assert LocalRow(t[u]);
    CreateOutcome(t, s, Some(u), c, slug, None);
    CreateKeepsForest(t, s, Some(t[u]), c, slug, None);
    var t' := CreateUnder(t, s, Some(t[u]), c, slug, None).0;
    assert c in t' && InScope(t'[c], s) && t'[c].parentUnitId == Some(u) && t'[c].status.Active?;
    ArchiveActiveIff(t', s, u);
  }

  /** From every such forest, a child created after the read of the children ends active under an archived parent. */
  lemma StaleChildrenCheck(t: Table, s: Scope, u: string, c: string, slug: string) returns (es: seq<Event>)
    requires LateBirthSetting(t, s, u, slug) && IsUnitId(c) && c !in t
    ensures !ActiveClosed(RunEvents(State(t, map[]), es).table)
    ensures forall e :: e in es ==> WellTypedEvent(e)
  {
    LateBirth(t, s, u, c, slug);
    hide IsUnitId, Forest, ActiveClosed, CreateUnder, Archive, HasActiveChild;
    var st0 := State(t, map[]);
    var first := [ReadChildren(1, s, u)];
    es := first + [ReadParent(2, s, u)] + [CommitCreate(2, c, slug, None)] + [CommitArchive(1)];
    RunAppend(st0, [], ReadChildren(1, s, u));
    assert [] + first == first;
    RunAppend(st0, first, ReadParent(2, s, u));
    RunAppend(st0, first + [ReadParent(2, s, u)], CommitCreate(2, c, slug, None));
    RunAppend(st0, first + [ReadParent(2, s, u)] + [CommitCreate(2, c, slug, None)], CommitArchive(1));
  }

  /** With any unit at depth 7 and any childless root, a child created after the depth check ends at depth 9. */
  lemma StaleDepthCheck(t: Table, s: Scope, n: string, g: string, c: string, slug: string) returns (es: seq<Event>)
    requires LateChildSetting(t, s, n, g) && IsUnitId(c) && c !in t
    ensures !DepthBounded(RunEvents(State(t, map[]), es).table)
    ensures forall e :: e in es ==> WellTypedEvent(e)
  {
    hide IsUnitId, IsPath, MoveAfterReads, CreateUnder, DepthBounded, DepthFits, Forest;
    var st0 := State(t, map[]);
    var node, target := t[n], t[g];
    LateChildFitsFirst(t, s, n, g);
    LateChild(t, s, n, g, c, slug);
    ReadsOfMove(st0, 1, s, n, g);
    var a := MoveReads(1, s, n, g);
    es := a + [ReadParent(2, s, n)] + [CommitCreate(2, c, slug, None)] + [CommitMove(1)];
    RunAppend(st0, a, ReadParent(2, s, n));
    RunAppend(st0, a + [ReadParent(2, s, n)], CommitCreate(2, c, slug, None));
    RunAppend(st0, a + [ReadParent(2, s, n)] + [CommitCreate(2, c, slug, None)], CommitMove(1));
  }

  /** A forest with a childless active root `n`, whose slug is its own, and an active unit `g` at depth 7. */
  predicate LateChildSetting(t: Table, s: Scope, n: string, g: string) {
    && Forest(t)
    && FindActive(t, s, n).Some? && t[n].parentUnitId.None?
    && (forall y :: y in t && y != n ==> !(IdsOf(t[n].path) <= IdsOf(t[y].path)))
    && (forall y :: y in t && y != n ==> t[y].slug != t[n].slug)
    && FindActive(t, s, g).Some? && t[g].depth == MAX_DEPTH - 1 && g != n
  }

  lemma LateChildFitsFirst(t: Table, s: Scope, n: string, g: string)
    requires LateChildSetting(t, s, n, g)
    ensures DepthFits(t, s, t[n], Delta(t[n], t[g])) && LocalRow(t[n]) && LocalRow(t[g]) && t[n].depth == 1
    ensures !IntoOwnSubtree(t[n], t[g])
  {
    var node, target := t[n], t[g];
    assert LocalRow(node) && LocalRow(target);
    RowIds(node);
    RootIds(t, n);
    OutsideOwnSubtree(node, target);
    forall y | y in t && InSubtree(s, node.path, t[y])
      ensures y == n
    {
      assert LocalRow(t[y]);
      RewriteRowIds(t[y], s, node, target);
    }
  }

  lemma LateChildCreated(t: Table, s: Scope, n: string, g: string, c: string, slug: string)
    requires LateChildSetting(t, s, n, g) && IsUnitId(c) && c !in t
    ensures var t' := CreateUnder(t, s, Some(t[n]), c, slug, None).0;
            Forest(t') && t' == t[c := NewRow(s, Some(t[n]), c, slug, None)]
  {
    LateChildFitsFirst(t, s, n, g);
    forall y | y in t
      ensures t[y].parentUnitId != Some(n)
    {
      if t[y].parentUnitId == Some(n) {
        ParentIds(t, y);
      }
    }
    CreateOutcome(t, s, Some(n), c, slug, None);
    CreateKeepsForest(t, s, Some(t[n]), c, slug, None);
  }

  /** The table after the late child: the move still takes effect on it and breaks the bound. */
  lemma LateChild(t: Table, s: Scope, n: string, g: string, c: string, slug: string)
    requires LateChildSetting(t, s, n, g) && IsUnitId(c) && c !in t
    ensures !DepthBounded(MoveAfterReads(CreateUnder(t, s, Some(t[n]), c, slug, None).0, s, t[n], t[g], true).0)
  {
    hide IsUnitId, IsPath, Glob, IdsOf, UniqueIndexes, ActiveClosed;
    var node, target := t[n], t[g];
    var t' := CreateUnder(t, s, Some(node), c, slug, None).0;
    LateChildFitsFirst(t, s, n, g);
    LateChildCreated(t, s, n, g, c, slug);
    assert LocalRow(t'[c]);
    assert LinkedRow(t', t'[c]);
    ParentIds(t', c);
    RewriteRowIds(t'[c], s, node, target);
    assert InSubtree(s, node.path, t'[c]) && t'[c].depth == 2;
    MoveRollback(t', s, node, target);
    MoveDepthIff(t', s, node, target);
  }

  // ---------------------------------------------------------------- forests for the schedules

  predicate Distinct(ids: seq<string>) {
    forall i, j :: 0 <= i < j < |ids| ==> ids[i] != ids[j]
  }

  /** The forest after creating k units, each under the one before. */
  function Chain(s: Scope, ids: seq<string>, k: nat): Table
    requires k <= |ids|
  {
    if k == 0 then map[]
    else
      var parent := if k == 1 then None else Some(ids[k - 2]);
      Exec(Chain(s, ids, k - 1), CreateUnit(s, parent, ids[k - 1], ids[k - 1], None)).0
  }

  predicate ChainRow(t: Table, s: Scope, id: string, depth: nat) {
    id in t && InScope(t[id], s) && t[id].status.Active? && t[id].slug == id && t[id].depth == depth
  }

  lemma NewDepth(t: Table, id: string)
    requires Linked(t) && id in t
    ensures t[id].parentUnitId.None? ==> t[id].depth == 1
    ensures t[id].parentUnitId.Some? ==>
              t[id].parentUnitId.value in t && t[id].depth == t[t[id].parentUnitId.value].depth + 1
  {
    hide IsPath, IdsOf, PathOf;
    assert LinkedRow(t, t[id]) && LocalRow(t[id]);
    RowIds(t[id]);
    if t[id].parentUnitId.None? {
      RootIds(t, id);
    } else {
      ParentIds(t, id);
      assert LocalRow(t[t[id].parentUnitId.value]);
      RowIds(t[t[id].parentUnitId.value]);
    }
  }

  /** One more unit in a forest whose slugs are its ids. */
  lemma ChainStep(t: Table, s: Scope, parent: Option<string>, depth: nat, id: string)
    requires Forest(t) && IsUnitId(id) && id !in t && depth < MAX_DEPTH
    requires forall y :: y in t ==> t[y].slug == y
    requires if parent.None? then depth == 0 else ChainRow(t, s, parent.value, depth)
    ensures var t' := Exec(t, CreateUnit(s, parent, id, id, None)).0;
            && Forest(t') && t'.Keys == t.Keys + {id} && (forall y :: y in t ==> t'[y] == t[y])
            && ChainRow(t', s, id, depth + 1) && t'[id].parentUnitId == parent
  {
    var op := CreateUnit(s, parent, id, id, None);
    CreateOutcome(t, s, parent, id, id, None);
    ExecKeepsForest(t, op);
    hide Exec, Forest, IsUnitId, UniqueIndexes, DepthBounded, ActiveClosed;
    var t' := Exec(t, op).0;
    ForestLinked(t');
    NewDepth(t', id);
  }

  /** The rows are those of the first k ids, each under the one before. */
  predicate ChainRows(t: Table, s: Scope, ids: seq<string>, k: nat)
    requires k <= |ids|
  {
    && (forall i {:trigger ids[i]} :: 0 <= i < k ==> ChainRow(t, s, ids[i], i + 1))
    && (forall y :: y in t ==> exists i :: 0 <= i < k && ids[i] == y)
  }

  lemma NextIsFresh(t: Table, s: Scope, ids: seq<string>, k: nat)
    requires k < |ids| && Distinct(ids) && ChainRows(t, s, ids, k)
    ensures ids[k] !in t && forall y :: y in t ==> t[y].slug == y
    ensures k > 0 ==> ChainRow(t, s, ids[k - 1], k)
  {
    assert k > 0 ==> ChainRow(t, s, ids[k - 1], k);
    forall y | y in t
      ensures y != ids[k] && t[y].slug == y
    {
      var i :| 0 <= i < k && ids[i] == y;
      assert ChainRow(t, s, ids[i], i + 1);
    }
  }

  lemma ChainRowsExtend(t: Table, t': Table, s: Scope, ids: seq<string>, k: nat)
    requires k < |ids| && ChainRows(t, s, ids, k) && ChainRow(t', s, ids[k], k + 1)
    requires t'.Keys == t.Keys + {ids[k]} && forall y :: y in t ==> t'[y] == t[y]
    ensures ChainRows(t', s, ids, k + 1)
  {
    forall i {:trigger ids[i]} | 0 <= i < k + 1
      ensures ChainRow(t', s, ids[i], i + 1)
    {
      assert i < k ==> ChainRow(t, s, ids[i], i + 1);
    }
  }

  lemma NoRows(s: Scope, ids: seq<string>)
    ensures Forest(map[]) && ChainRows(map[], s, ids, 0)
  {
  }

  lemma {:induction false} ChainOk(s: Scope, ids: seq<string>, k: nat)
    requires k <= |ids| <= MAX_DEPTH && AllIds(ids) && Distinct(ids)
    ensures Forest(Chain(s, ids, k)) && ChainRows(Chain(s, ids, k), s, ids, k)
  {
    hide Exec, Forest, IsUnitId, Distinct, ChainRows, ChainRow;
    if k == 0 {
      NoRows(s, ids);
    } else {
      ChainOk(s, ids, k - 1);
      var t := Chain(s, ids, k - 1);
      NextIsFresh(t, s, ids, k - 1);
      ChainStep(t, s, if k == 1 then None else Some(ids[k - 2]), k - 1, ids[k - 1]);
      ChainRowsExtend(t, Chain(s, ids, k), s, ids, k - 1);
    }
  }

  lemma ForestLinked(t: Table)
    requires Forest(t)
    ensures Linked(t)
  {
  }

  /**
   * Above every row stands, at the top of its ids, a row; so a unit that nobody names as a parent has nothing under it.
   */
  lemma NothingUnder(t: Table, n: string)
    requires Linked(t) && n in t && t[n].parentUnitId.None? && IsUnitId(n)
    requires forall y :: y in t ==> t[y].parentUnitId != Some(n)
    ensures forall y :: y in t && y != n ==> !(IdsOf(t[n].path) <= IdsOf(t[y].path))
  {
    hide IsUnitId, IsPath, PathOf;
    RootIds(t, n);
    forall y | y in t && y != n
      ensures !(IdsOf(t[n].path) <= IdsOf(t[y].path))
    {
      NotAbove(t, n, y);
    }
  }

  lemma {:induction false} NotAbove(t: Table, n: string, y: string)
    requires Linked(t) && y in t && y != n
    requires forall x :: x in t ==> t[x].parentUnitId != Some(n)
    ensures IdsOf(t[y].path) != [] && !([n] <= IdsOf(t[y].path))
    decreases |IdsOf(t[y].path)|
  {
    hide IsUnitId, IsPath, PathOf, IdsOf;
    if t[y].parentUnitId.None? {
      RootIds(t, y);
    } else {
      ParentIds(t, y);
      NotAbove(t, n, t[y].parentUnitId.value);
    }
    NotUnder(n, IdsOf(t[y].path));
  }

  /** The setting of StaleDepthCheck: seven units in a chain and one more root. */
  lemma LateChildSettingExists(s: Scope, ids: seq<string>) returns (t: Table)
    requires |ids| == MAX_DEPTH && AllIds(ids) && Distinct(ids)
    ensures LateChildSetting(t, s, ids[7], ids[6])
    ensures Among(t, ids)
  {
    ChainFresh(s, ids, 7);
    var t0 := Chain(s, ids, 7);
    hide Exec, IsUnitId, Chain, IsPath, IdsOf, PathOf, Forest, AllIds, Distinct, ChainRows, Among;
    t := NewRoot(t0, s, ids[7]);
    OldOrNew(t0, t, s, ids);
    NothingUnder(t, ids[7]);
    hide ChainRow, FindActive, Linked, LateChildSetting;
    RootBeside(t0, t, s, ids[7], ids[6]);
  }

  predicate Among(t: Table, ids: seq<string>) {
    forall y :: y in t ==> exists i :: 0 <= i < |ids| && ids[i] == y
  }

  lemma RootBeside(t0: Table, t: Table, s: Scope, n: string, g: string)
    requires n !in t0 && t.Keys == t0.Keys + {n} && forall y :: y in t0 ==> t[y] == t0[y] && t0[y].slug == y
    requires Forest(t) && FindActive(t, s, n).Some? && t[n].parentUnitId.None? && t[n].slug == n
    requires forall y :: y in t && y != n ==> !(IdsOf(t[n].path) <= IdsOf(t[y].path))
    requires ChainRow(t0, s, g, MAX_DEPTH - 1)
    ensures LateChildSetting(t, s, n, g)
  {
    hide IsUnitId, IsPath, IdsOf, PathOf, Forest;
  }

  lemma OldOrNew(t0: Table, t: Table, s: Scope, ids: seq<string>)
    requires |ids| == MAX_DEPTH && t.Keys == t0.Keys + {ids[7]}
    requires ChainRows(t0, s, ids, 7)
    ensures Among(t, ids)
  {
    forall y | y in t
      ensures exists i :: 0 <= i < |ids| && ids[i] == y
    {
      if y == ids[7] {
        assert ids[7] == y;
      } else {
        var i :| 0 <= i < 7 && ids[i] == y;
      }
    }
  }

  /** The next id is neither a row of the chain nor a slug in it. */
  lemma ChainFresh(s: Scope, ids: seq<string>, k: nat)
    requires 0 < k < |ids| <= MAX_DEPTH && AllIds(ids) && Distinct(ids)
    ensures var t := Chain(s, ids, k);
            && Forest(t) && ids[k] !in t && IsUnitId(ids[k]) && ids[k - 1] != ids[k]
            && (forall y :: y in t ==> t[y].slug == y)
            && ChainRow(t, s, ids[k - 1], k) && ChainRows(t, s, ids, k)
  {
    ChainOk(s, ids, k);
    NextIsFresh(Chain(s, ids, k), s, ids, k);
  }

  /** A new root beside a forest whose slugs are its ids. */
  lemma NewRoot(t0: Table, s: Scope, n: string) returns (t: Table)
    requires Forest(t0) && IsUnitId(n) && n !in t0
    requires forall y :: y in t0 ==> t0[y].slug == y
    ensures Forest(t) && Linked(t) && t.Keys == t0.Keys + {n} && (forall y :: y in t0 ==> t[y] == t0[y])
    ensures FindActive(t, s, n).Some? && t[n].parentUnitId.None? && t[n].slug == n
    ensures forall y :: y in t ==> t[y].parentUnitId != Some(n)
  {
    hide IsUnitId, IsPath, IdsOf, PathOf, Exec, UniqueIndexes, DepthBounded, ActiveClosed;
    ForestLinked(t0);
    forall y | y in t0
      ensures t0[y].parentUnitId != Some(n)
    {
      assert LinkedRow(t0, t0[y]);
    }
    ChainStep(t0, s, None, 0, n);
    t := Exec(t0, CreateUnit(s, None, n, n, None)).0;
    ForestLinked(t);
  }

  /** The setting of StaleChildrenCheck: one root. */
  lemma LateBirthSettingExists(s: Scope, u: string, slug: string) returns (t: Table)
    requires IsUnitId(u) && slug != u
    ensures LateBirthSetting(t, s, u, slug) && t.Keys == {u}
  {
    ChainOk(s, [u], 1);
    t := Chain(s, [u], 1);
    hide Chain, Exec, IsUnitId, Forest;
    assert ChainRow(t, s, [u][0], 1);
    ForestLinked(t);
    NewDepth(t, u);
    assert !HasActiveChild(t, s, u);
  }

  /** Unit ids that differ in their last character. */
  function SampleId(k: nat): string
    requires k < 26
  {
    "ou_" + seq(20, _ => 'A') + [('A' as int + k) as char]
  }

  lemma SampleIds()
    ensures forall k :: 0 <= k < 26 ==> IsUnitId(SampleId(k))
    ensures forall k, j :: 0 <= k < j < 26 ==> SampleId(k) != SampleId(j)
  {
    forall k | 0 <= k < 26
      ensures IsUnitId(SampleId(k)) && SampleId(k)[23] == ('A' as int + k) as char
    {
      assert SampleId(k)[..3] == "ou_";
    }
  }

  /** In every organisation: some forest and some schedule break the depth bound. */
  lemma DepthCanBreak(s: Scope) returns (t: Table, es: seq<Event>)
    ensures Forest(t) && !DepthBounded(RunEvents(State(t, map[]), es).table)
    ensures forall e :: e in es ==> WellTypedEvent(e)
  {
    hide SampleId, IsUnitId, Forest, DepthBounded, RunEvents, WellTypedEvent;
    SampleIds();
    var ids := seq(MAX_DEPTH, i requires 0 <= i < MAX_DEPTH => SampleId(i));
    t := LateChildSettingExists(s, ids);
    es := StaleDepthCheck(t, s, ids[7], ids[6], SampleId(9), "s");
  }

  /** Some forest and some schedule with a late archive leave an active unit under an archived one. */
  lemma ArchiveCanBreak(s: Scope) returns (t: Table, es: seq<Event>)
    ensures Forest(t) && !ActiveClosed(RunEvents(State(t, map[]), es).table)
    ensures forall e :: e in es ==> WellTypedEvent(e)
  {
    hide SampleId, IsUnitId, Forest, ActiveClosed, RunEvents, WellTypedEvent;
    SampleIds();
    t := LateBirthSettingExists(s, SampleId(0), SampleId(2));
    es := StaleChildrenCheck(t, s, SampleId(0), SampleId(1), SampleId(2));
  }

  /** So do three roots and a schedule with a late move. */
  lemma MoveCanBreak(s: Scope) returns (t: Table, es: seq<Event>)
    ensures Forest(t) && !ActiveClosed(RunEvents(State(t, map[]), es).table)
    ensures forall e :: e in es ==> WellTypedEvent(e)
  {
    hide SampleId, IsUnitId, Forest, ActiveClosed, RunEvents, WellTypedEvent;
    SampleIds();
    var x, y, z := SampleId(0), SampleId(1), SampleId(2);
    t := map[x := NewRow(s, None, x, x, None), y := NewRow(s, None, y, y, None), z := NewRow(s, None, z, z, None)];
    ThreeRootsExist(s, x, y, z);
    es := StaleTargetStatus(t, s, x, y, z);
  }

  /** Three roots and the schedule of three moves leave a row whose path does not lead along the pointers. */
  lemma LinksCanBreak(s: Scope) returns (t: Table, es: seq<Event>)
    ensures Forest(t) && !Linked(RunEvents(State(t, map[]), es).table)
    ensures forall e :: e in es ==> WellTypedEvent(e)
  {
    hide SampleId, IsUnitId, Linked, RunEvents, WellTypedEvent, MoveBatch, StillAt, IntoOwnSubtree;
    SampleIds();
    var x, y, z := SampleId(0), SampleId(1), SampleId(2);
    t := map[x := NewRow(s, None, x, x, None), y := NewRow(s, None, y, y, None), z := NewRow(s, None, z, z, None)];
    ThreeRootsExist(s, x, y, z);
    es := ConflictThatRewrites(t, s, x, y, z);
    var st := RunEvents(State(t, map[]), es);
    var p := st.pending[3];
    FromForest(t, es);
    assert PendingOk(st.table, p);
    if Linked(st.table) {
      QuietConflict(st.table, p.s, p.node, p.target, p.fits);
    }
  }

  lemma FromForest(t: Table, es: seq<Event>)
    requires Forest(t) && forall e :: e in es ==> WellTypedEvent(e)
    ensures var st := RunEvents(State(t, map[]), es);
            forall pid {:trigger st.pending[pid]} :: pid in st.pending ==> PendingOk(st.table, st.pending[pid])
  {
    ForestLinked(t);
    EveryInterleavingConsistent(State(t, map[]), es);
  }

  /** In a linked table a reported conflict rewrites nothing. */
  lemma QuietConflict(t: Table, s: Scope, node: UnitRow, target: UnitRow, fits: bool)
    requires Linked(t) && SnapOk(t, s, node) && SnapOk(t, s, target)
    ensures MoveAfterReads(t, s, node, target, fits).1 == Err(Conflict) ==>
              MoveAfterReads(t, s, node, target, fits).0 == t
  {
    if !IntoOwnSubtree(node, target) && fits && MoveBatch(t, s, node, target).Some? && !StillAt(t, s, node) {
      MissedMoveChangesNothing(t, s, node, target);
    }
  }
}
