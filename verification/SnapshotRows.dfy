/** What the built tree shows: every displayed row, in order, and under each
    workspace on display exactly the rows listed for it. */
module SnapshotRows {
  import opened AppState
  import opened DisplayOrder
  import opened Options
  import opened Seqs
  import opened Sessions
  import opened SidebarFocus
  import opened Snapshots

  // ---- Growing trees ----

  ghost predicate Fits(t: Tree, parent: Parent) {
    parent.Under? ==> parent.node < |t.nodes|
  }

  /** The second tree is the first with nodes added. */
  ghost predicate Extends(a: Tree, b: Tree) {
    && |a.nodes| <= |b.nodes| && (forall i :: 0 <= i < |a.nodes| ==> b.nodes[i] == a.nodes[i])
    && |a.projected| <= |b.projected| && (forall i :: 0 <= i < |a.projected| ==> b.projected[i] == a.projected[i])
    && (forall i :: |a.projected| <= i < |b.projected| ==> |a.nodes| <= b.projected[i] < |b.nodes|)
  }

  /** No node was added under the node k. */
  ghost predicate Apart(a: Tree, b: Tree, k: nat) {
    forall i :: |a.nodes| <= i < |b.nodes| ==> b.nodes[i].parent != Under(k)
  }

  lemma ExtendsOn(a: Tree, b: Tree, c: Tree)
    requires Extends(a, b) && Extends(b, c)
    ensures Extends(a, c)
    ensures forall k :: Apart(a, b, k) && Apart(b, c, k) ==> Apart(a, c, k)
  {
  }

  lemma FindStays(a: Tree, b: Tree, row: Row)
    requires Extends(a, b) && Find(a, row).Some?
    ensures Find(b, row) == Find(a, row)
  {
  }

  lemma DrawnStays(a: Tree, b: Tree, k: nat)
    requires Extends(a, b) && k in a.projected
    ensures k in b.projected
  {
    var i := IndexIn(a.projected, k);
    assert b.projected[i] == k;
  }

  lemma {:induction false} AmongGrown(a: Tree, b: Tree, ids: seq<nat>, parent: Parent)
    requires Extends(a, b) && forall k :: k in ids ==> k < |a.nodes|
    ensures Among(b, ids, parent) == Among(a, ids, parent)
  {
    if ids != [] {
      assert ids[0] in ids && forall k :: k in ids[1..] ==> k in ids;
      AmongGrown(a, b, ids[1..], parent);
    }
  }

  lemma {:induction false} AmongConcat(t: Tree, a: seq<nat>, b: seq<nat>, parent: Parent)
    requires forall k :: k in a || k in b ==> k < |t.nodes|
    requires forall k :: k in a + b ==> k < |t.nodes|
    ensures Among(t, a + b, parent) == Among(t, a, parent) + Among(t, b, parent)
  {
    if a == [] {
      assert a + b == b;
    } else {
      assert (a + b)[0] == a[0] && (a + b)[1..] == a[1..] + b;
      assert a[0] in a && a[0] in a + b && forall k :: k in a[1..] ==> k in a;
      AmongConcat(t, a[1..], b, parent);
      Associate(if t.nodes[a[0]].parent == parent then [a[0]] else [], Among(t, a[1..], parent), Among(t, b, parent));
    }
  }

  lemma {:induction false} AmongNone(t: Tree, ids: seq<nat>, parent: Parent)
    requires forall k :: k in ids ==> k < |t.nodes| && t.nodes[k].parent != parent
    ensures Among(t, ids, parent) == []
  {
    if ids != [] {
      assert ids[0] in ids && forall k :: k in ids[1..] ==> k in ids;
      AmongNone(t, ids[1..], parent);
    }
  }

  lemma {:induction false} AmongHolds(t: Tree, ids: seq<nat>, parent: Parent, k: nat)
    requires (forall i :: i in ids ==> i < |t.nodes|) && k in ids && t.nodes[k].parent == parent
    ensures k in Among(t, ids, parent)
  {
    assert ids == [ids[0]] + ids[1..];
    if ids[0] != k {
      assert k in ids[1..] && forall i :: i in ids[1..] ==> i in ids;
      AmongHolds(t, ids[1..], parent, k);
    }
  }

  lemma ChildrenSplit(a: Tree, b: Tree, k: nat)
    requires a.Valid() && b.Valid() && Extends(a, b)
    ensures forall i :: i in b.projected[|a.projected|..] ==> |a.nodes| <= i < |b.nodes|
    ensures Children(b, Under(k)) == Children(a, Under(k)) + Among(b, b.projected[|a.projected|..], Under(k))
  {
    var more := b.projected[|a.projected|..];
    assert b.projected == a.projected + more;
    assert forall i :: i in a.projected ==> i < |a.nodes|;
    AmongConcat(b, a.projected, more, Under(k));
    AmongGrown(a, b, a.projected, Under(k));
  }

  lemma ChildrenStay(a: Tree, b: Tree, k: nat)
    requires a.Valid() && b.Valid() && Extends(a, b) && Apart(a, b, k)
    ensures Children(b, Under(k)) == Children(a, Under(k))
  {
    ChildrenSplit(a, b, k);
    AmongNone(b, b.projected[|a.projected|..], Under(k));
  }

  /** The rows drawn under a node. */
  function RowsUnder(t: Tree, k: nat): (rows: seq<Row>)
    requires t.Valid()
    ensures |rows| == |Children(t, Under(k))|
    ensures forall i :: 0 <= i < |rows| ==>
              Children(t, Under(k))[i] in t.projected && rows[i] == t.nodes[Children(t, Under(k))[i]].row
  {
    var ids := Children(t, Under(k));
    assert forall k :: k in ids ==> k in t.projected;
    seq(|ids|, i requires 0 <= i < |ids| => assert ids[i] in ids; t.nodes[ids[i]].row)
  }

  lemma RowsStay(a: Tree, b: Tree, k: nat)
    requires a.Valid() && b.Valid() && Extends(a, b) && Apart(a, b, k)
    ensures RowsUnder(b, k) == RowsUnder(a, k)
  {
    ChildrenStay(a, b, k);
  }

  lemma AddedExtends(t: Tree, row: Row, parent: Parent, drawn: bool)
    requires t.Valid() && Fits(t, parent)
    ensures Added(t, row, parent, drawn).Valid() && Extends(t, Added(t, row, parent, drawn))
    ensures forall k :: parent != Under(k) ==> Apart(t, Added(t, row, parent, drawn), k)
  {
  }

  lemma RowsAdded(t: Tree, row: Row, k: nat)
    requires t.Valid() && k < |t.nodes|
    ensures Added(t, row, Under(k), true).Valid()
    ensures RowsUnder(Added(t, row, Under(k), true), k) == RowsUnder(t, k) + [row]
  {
    var b, n := Added(t, row, Under(k), true), |t.nodes|;
    AddedExtends(t, row, Under(k), true);
    ChildrenSplit(t, b, k);
    assert b.projected[|t.projected|..] == [n] && [n][1..] == [];
    assert Children(b, Under(k)) == Children(t, Under(k)) + [n];
    var was, ids := Children(t, Under(k)), Children(b, Under(k));
    forall i | 0 <= i < |was|
      ensures RowsUnder(b, k)[i] == RowsUnder(t, k)[i]
    {
      assert ids[i] == was[i] && was[i] in was;
    }
  }

  // ---- Whose row it is ----

  /** The workspace a row belongs to. */
  type Homes = Row -> Option<Workspace>

  ghost predicate Homed(v: View, home: Homes) {
    && (forall ws :: home(HeadRow(ws)) == Some(ws))
    && (forall root :: home(ProjectRow(root)).None?)
    && (forall ws, e :: e in v.listed(ws) ==> home(RowOf(e)) == Some(ws))
    && (forall s :: s in v.live ==> home(Row.SessionRow(s.id)) == Some(s.workspace))
    && (forall id :: home(Row.SessionRow(id)).Some? ==> Holds(v.live, home(Row.SessionRow(id)).value, id))
  }

  ghost predicate NodeIsHoused(t: Tree, i: nat, home: Homes)
    requires i < |t.nodes|
  {
    var n := t.nodes[i];
    && (n.row.ProjectRow? || home(n.row).Some?)
    && (n.row.SessionRow? && n.parent.Under? && n.parent.node < |t.nodes| ==>
          t.nodes[n.parent.node].row == HeadRow(home(n.row).value))
  }

  /** Every row is a workspace's or a project's, and a session's row is under its
      own workspace or nowhere. */
  ghost predicate Housed(t: Tree, home: Homes) {
    t.Valid() && forall i :: 0 <= i < |t.nodes| ==> NodeIsHoused(t, i, home)
  }

  /** No row is the workspace's yet. */
  ghost predicate Foreign(t: Tree, ws: Workspace, home: Homes) {
    forall i :: 0 <= i < |t.nodes| ==> home(t.nodes[i].row) != Some(ws)
  }

  /** Both trees are housed, and the second is the first with nodes added. */
  ghost predicate Grown(a: Tree, b: Tree, home: Homes) {
    Housed(a, home) && Housed(b, home) && Extends(a, b)
  }

  lemma AddedGrows(t: Tree, row: Row, parent: Parent, drawn: bool, home: Homes)
    requires Housed(t, home) && Fits(t, parent) && (row.ProjectRow? || home(row).Some?)
    requires row.SessionRow? && parent.Under? ==> t.nodes[parent.node].row == HeadRow(home(row).value)
    ensures Grown(t, Added(t, row, parent, drawn), home)
    ensures forall k :: parent != Under(k) ==> Apart(t, Added(t, row, parent, drawn), k)
    ensures forall ws :: home(row) != Some(ws) && Foreign(t, ws, home) ==> Foreign(Added(t, row, parent, drawn), ws, home)
  {
    var b := Added(t, row, parent, drawn);
    AddedExtends(t, row, parent, drawn);
    forall i | 0 <= i < |b.nodes|
      ensures NodeIsHoused(b, i, home)
    {
      if i < |t.nodes| {
        assert NodeIsHoused(t, i, home);
      }
    }
  }

  lemma {:induction false} EntriesGrow(b: Build, entries: seq<Entry>, k: nat, own: Workspace, home: Homes)
    requires Housed(b.tree, home) && k < |b.tree.nodes| && b.tree.nodes[k].row == HeadRow(own)
    requires forall e :: e in entries ==> home(RowOf(e)) == Some(own)
    ensures var c := PlaceEntries(b, entries, Under(k));
            && c.done == b.done && Grown(b.tree, c.tree, home)
            && (forall n :: n != k ==> Apart(b.tree, c.tree, n))
            && (forall ws :: ws != own && Foreign(b.tree, ws, home) ==> Foreign(c.tree, ws, home))
    decreases |entries|
  {
    if entries != [] {
      assert entries[0] in entries && forall e :: e in entries[1..] ==> e in entries;
      var next := Place(b, RowOf(entries[0]), Under(k));
      AddedGrows(b.tree, RowOf(entries[0]), Under(k), b.rest != [] && b.rest[0] == RowOf(entries[0]), home);
      EntriesGrow(next, entries[1..], k, own, home);
      ExtendsOn(b.tree, next.tree, PlaceEntries(b, entries, Under(k)).tree);
    }
  }

  lemma {:induction false} UnlistedGrow(t: Tree, live: seq<Session>, own: Workspace, entries: seq<Entry>, k: nat, home: Homes)
    requires Housed(t, home) && k < |t.nodes| && t.nodes[k].row == HeadRow(own)
    requires forall s :: s in live ==> home(Row.SessionRow(s.id)) == Some(s.workspace)
    ensures var c := AddUnlisted(t, live, own, entries, Under(k));
            && Grown(t, c, home) && c.projected == t.projected
            && (forall n :: n != k ==> Apart(t, c, n))
            && (forall ws :: ws != own && Foreign(t, ws, home) ==> Foreign(c, ws, home))
    decreases |live|
  {
    if live != [] {
      assert live[0] in live && forall s :: s in live[1..] ==> s in live;
      var row := Row.SessionRow(live[0].id);
      var next := if Unlisted(live[0], own, entries) then Added(t, row, Under(k), false) else t;
      if Unlisted(live[0], own, entries) {
        AddedGrows(t, row, Under(k), false, home);
      }
      UnlistedGrow(next, live[1..], own, entries, k, home);
      ExtendsOn(t, next, AddUnlisted(t, live, own, entries, Under(k)));
    }
  }

  lemma WorkspaceGrows(b: Build, v: View, own: Workspace, k: nat, home: Homes)
    requires Homed(v, home) && Housed(b.tree, home) && k < |b.tree.nodes| && b.tree.nodes[k].row == HeadRow(own)
    ensures var c := PlaceWorkspace(b, v, own, Under(k));
            && Grown(b.tree, c.tree, home)
            && (forall n :: n != k ==> Apart(b.tree, c.tree, n))
            && (forall ws :: ws != own && Foreign(b.tree, ws, home) ==> Foreign(c.tree, ws, home))
  {
    var c := PlaceEntries(b, v.listed(own), Under(k));
    EntriesGrow(b, v.listed(own), k, own, home);
    UnlistedGrow(c.tree, v.live, own, v.listed(own), k, home);
    ExtendsOn(b.tree, c.tree, PlaceWorkspace(b, v, own, Under(k)).tree);
  }

  /** A workspace's block goes under a node of its own. */
  lemma BlockGrows(b: Build, v: View, own: Workspace, parent: Parent, home: Homes)
    requires Homed(v, home) && Housed(b.tree, home) && Fits(b.tree, parent)
    ensures var c := PlaceBlock(b, v, own, parent);
            && Grown(b.tree, c.tree, home)
            && (forall n: nat :: n < |b.tree.nodes| && parent != Under(n) ==> Apart(b.tree, c.tree, n))
            && (forall ws :: ws != own && Foreign(b.tree, ws, home) ==> Foreign(c.tree, ws, home))
  {
    var next := Place(b, HeadRow(own), parent);
    AddedGrows(b.tree, HeadRow(own), parent, b.rest != [] && b.rest[0] == HeadRow(own), home);
    WorkspaceGrows(next, v, own, |b.tree.nodes|, home);
    ExtendsOn(b.tree, next.tree, PlaceBlock(b, v, own, parent).tree);
  }

  lemma {:induction false} CheckoutsGrow(b: Build, v: View, paths: seq<string>, project: nat, home: Homes)
    requires Homed(v, home) && Housed(b.tree, home) && project < |b.tree.nodes|
    ensures var c := PlaceCheckouts(b, v, paths, project);
            && Grown(b.tree, c.tree, home)
            && (forall n: nat :: n < |b.tree.nodes| && n != project ==> Apart(b.tree, c.tree, n))
            && (forall path :: path !in paths && Foreign(b.tree, Some(path), home) ==> Foreign(c.tree, Some(path), home))
    decreases |paths|
  {
    if paths != [] {
      var next := PlaceCheckout(b, v, paths[0], project);
      if v.skip != Some(paths[0]) {
        BlockGrows(b, v, Some(paths[0]), Under(project), home);
      }
      CheckoutsGrow(next, v, paths[1..], project, home);
      ExtendsOn(b.tree, next.tree, PlaceCheckouts(b, v, paths, project).tree);
      assert forall path :: path !in paths ==> path != paths[0] && path !in paths[1..];
    }
  }

  lemma ProjectGrows(b: Build, v: View, p: Project, home: Homes)
    requires Homed(v, home) && Housed(b.tree, home)
    ensures var c := PlaceProject(b, v, p);
            && Grown(b.tree, c.tree, home)
            && (forall n: nat :: n < |b.tree.nodes| ==> Apart(b.tree, c.tree, n))
            && (forall path :: path !in p.checkouts && Foreign(b.tree, Some(path), home) ==> Foreign(c.tree, Some(path), home))
  {
    var next := Place(b, ProjectRow(p.root), Root);
    AddedGrows(b.tree, ProjectRow(p.root), Root, b.rest != [] && b.rest[0] == ProjectRow(p.root), home);
    CheckoutsGrow(next, v, p.checkouts, |b.tree.nodes|, home);
    ExtendsOn(b.tree, next.tree, PlaceProject(b, v, p).tree);
  }

  lemma {:induction false} ProjectsGrow(b: Build, v: View, projects: seq<Project>, home: Homes)
    requires Homed(v, home) && Housed(b.tree, home)
    ensures var c := PlaceProjects(b, v, projects);
            && Grown(b.tree, c.tree, home)
            && (forall n: nat :: n < |b.tree.nodes| ==> Apart(b.tree, c.tree, n))
    decreases |projects|
  {
    if projects != [] {
      var next := PlaceProject(b, v, projects[0]);
      ProjectGrows(b, v, projects[0], home);
      ProjectsGrow(next, v, projects[1..], home);
      ExtendsOn(b.tree, next.tree, PlaceProjects(b, v, projects).tree);
    }
  }

  lemma {:induction false} DetachedGrow(t: Tree, live: seq<Session>, done: set<Workspace>, home: Homes)
    requires Housed(t, home) && forall s :: s in live ==> home(Row.SessionRow(s.id)) == Some(s.workspace)
    ensures var c := AddDetached(t, live, done);
            Grown(t, c, home) && forall n :: Apart(t, c, n)
    decreases |live|
  {
    if live != [] {
      assert live[0] in live && forall s :: s in live[1..] ==> s in live;
      var next := if live[0].workspace in done then t else Added(t, Row.SessionRow(live[0].id), Parent.Detached, false);
      if live[0].workspace !in done {
        AddedGrows(t, Row.SessionRow(live[0].id), Parent.Detached, false, home);
      }
      DetachedGrow(next, live[1..], done, home);
      ExtendsOn(t, next, AddDetached(t, live, done));
    }
  }

  // ---- In step with the display ----

  /** Nothing but a project's row comes next, if any. */
  ghost predicate AtProject(rest: seq<Row>) {
    rest == [] || rest[0].ProjectRow?
  }

  lemma AsRowsOf(entries: seq<Entry>)
    ensures |AsRows(entries)| == |entries| && forall i :: 0 <= i < |entries| ==> AsRows(entries)[i] == RowOf(entries[i])
    ensures entries != [] ==> AsRows(entries) == [RowOf(entries[0])] + AsRows(entries[1..])
  {
  }

  lemma {:induction false} EntriesMeet(b: Build, entries: seq<Entry>, parent: Parent, more: seq<Row>)
    requires b.rest == AsRows(entries) + more
    ensures PlaceEntries(b, entries, parent).rest == more
    decreases |entries|
  {
    if entries != [] {
      AsRowsOf(entries);
      assert b.rest[1..] == AsRows(entries[1..]) + more;
      EntriesMeet(Place(b, RowOf(entries[0]), parent), entries[1..], parent, more);
    }
  }

  lemma {:induction false} EntriesMiss(b: Build, entries: seq<Entry>, parent: Parent)
    requires AtProject(b.rest)
    ensures PlaceEntries(b, entries, parent).rest == b.rest
    decreases |entries|
  {
    if entries != [] {
      EntriesMiss(Place(b, RowOf(entries[0]), parent), entries[1..], parent);
    }
  }

  lemma BlockMeets(b: Build, v: View, ws: Workspace, parent: Parent, more: seq<Row>)
    requires b.rest == [HeadRow(ws)] + AsRows(v.listed(ws)) + more
    ensures PlaceBlock(b, v, ws, parent).rest == more
  {
    assert b.rest[1..] == AsRows(v.listed(ws)) + more;
    EntriesMeet(Place(b, HeadRow(ws), parent), v.listed(ws), Under(|b.tree.nodes|), more);
  }

  lemma {:induction false} SkipMeets(entries: seq<Entry>, more: seq<Row>)
    ensures SkipEntries(AsRows(entries) + more, entries) == more
    decreases |entries|
  {
    if entries == [] {
      assert AsRows(entries) + more == more;
    } else {
      AsRowsOf(entries);
      assert (AsRows(entries) + more)[1..] == AsRows(entries[1..]) + more;
      SkipMeets(entries[1..], more);
    }
  }

  lemma {:induction false} CheckoutsMeet(b: Build, v: View, paths: seq<string>, project: nat, more: seq<Row>)
    requires b.rest == CheckoutRows(paths, v.listed) + more
    ensures PlaceCheckouts(b, v, paths, project).rest == more
    decreases |paths|
  {
    if paths != [] {
      Associate([WorktreeRow(paths[0])] + AsRows(v.listed(Some(paths[0]))), CheckoutRows(paths[1..], v.listed), more);
      CheckoutMeets(b, v, paths[0], project, CheckoutRows(paths[1..], v.listed) + more);
      CheckoutsMeet(PlaceCheckout(b, v, paths[0], project), v, paths[1..], project, more);
    }
  }

  lemma CheckoutMeets(b: Build, v: View, path: string, project: nat, more: seq<Row>)
    requires b.rest == [WorktreeRow(path)] + AsRows(v.listed(Some(path))) + more
    ensures PlaceCheckout(b, v, path, project).rest == more
  {
    assert b.rest[1..] == AsRows(v.listed(Some(path))) + more;
    SkipMeets(v.listed(Some(path)), more);
    BlockMeets(b, v, Some(path), Under(project), more);
  }

  lemma {:induction false} CheckoutsMiss(b: Build, v: View, paths: seq<string>, project: nat)
    requires AtProject(b.rest)
    ensures PlaceCheckouts(b, v, paths, project).rest == b.rest
    decreases |paths|
  {
    if paths != [] {
      var own := Some(paths[0]);
      EntriesMiss(Place(b, HeadRow(own), Under(project)), v.listed(own), Under(|b.tree.nodes|));
      CheckoutsMiss(PlaceCheckout(b, v, paths[0], project), v, paths[1..], project);
    }
  }

  lemma ProjectIsMet(b: Build, p: Project, listed: Listings, more: seq<Row>)
    requires b.rest == RowsOfProject(p, listed) + more
    ensures Place(b, ProjectRow(p.root), Root).rest == (if p.expanded then CheckoutRows(p.checkouts, listed) else []) + more
  {
    assert b.rest[0] == ProjectRow(p.root);
    assert b.rest[1..] == (if p.expanded then CheckoutRows(p.checkouts, listed) else []) + more;
  }

  lemma ProjectMeets(b: Build, v: View, p: Project, more: seq<Row>)
    requires b.rest == RowsOfProject(p, v.listed) + more && AtProject(more)
    ensures PlaceProject(b, v, p).rest == more
  {
    var next := Place(b, ProjectRow(p.root), Root);
    ProjectIsMet(b, p, v.listed, more);
    if p.expanded {
      CheckoutsMeet(next, v, p.checkouts, |b.tree.nodes|, more);
    } else {
      assert next.rest == more;
      CheckoutsMiss(next, v, p.checkouts, |b.tree.nodes|);
    }
  }

  lemma ProjectsStartThere(projects: seq<Project>, listed: Listings)
    ensures AtProject(ProjectRows(projects, listed))
  {
  }

  lemma {:induction false} ProjectsMeet(b: Build, v: View, projects: seq<Project>)
    requires b.rest == ProjectRows(projects, v.listed)
    ensures PlaceProjects(b, v, projects).rest == []
    decreases |projects|
  {
    if projects != [] {
      ProjectsStartThere(projects[1..], v.listed);
      ProjectMeets(b, v, projects[0], ProjectRows(projects[1..], v.listed));
      ProjectsMeet(PlaceProject(b, v, projects[0]), v, projects[1..]);
    }
  }

  function Nothing(rows: seq<Row>): Build { Build(Tree([], [], false), rows, {}) }

  /** Every row on display has its node: building meets them all, in order, a
      skipped worktree's included. */
  lemma AllRowsAreMet(v: View)
    ensures BuildOf(v, VisibleRows(v.projects, v.listed)).rest == []
  {
    var rows := VisibleRows(v.projects, v.listed);
    BlockMeets(Nothing(rows), v, None, Root, ProjectRows(v.projects, v.listed));
    ProjectsMeet(PlaceBlock(Nothing(rows), v, None, Root), v, v.projects);
  }

  // ---- Under a workspace on display ----

  ghost predicate PlacedUnder(t: Tree, k: nat, row: Row) {
    var i := Find(t, row);
    i.Some? && i.value in t.projected && t.nodes[i.value].parent == Under(k)
  }

  /** The workspace's row is drawn at k, and under it exactly these rows. */
  ghost predicate Seated(t: Tree, k: nat, ws: Workspace, entries: seq<Entry>) {
    && t.Valid() && k < |t.nodes| && Find(t, HeadRow(ws)) == Some(k) && k in t.projected
    && RowsUnder(t, k) == AsRows(entries)
    && forall e :: e in entries ==> PlacedUnder(t, k, RowOf(e))
  }

  ghost predicate HasNode(t: Tree, row: Row) {
    exists i :: 0 <= i < |t.nodes| && t.nodes[i].row == row
  }

  lemma RowStays(a: Tree, b: Tree, row: Row)
    requires Extends(a, b) && HasNode(a, row)
    ensures HasNode(b, row)
  {
    var i :| 0 <= i < |a.nodes| && a.nodes[i].row == row;
    assert b.nodes[i] == a.nodes[i];
  }

  lemma {:induction false} UnlistedHolds(t: Tree, live: seq<Session>, ws: Workspace, entries: seq<Entry>, k: nat, s: Session)
    requires t.Valid() && k < |t.nodes| && s in live && Unlisted(s, ws, entries)
    ensures HasNode(AddUnlisted(t, live, ws, entries, Under(k)), Row.SessionRow(s.id))
    decreases |live|
  {
    var next := if Unlisted(live[0], ws, entries) then Added(t, Row.SessionRow(live[0].id), Under(k), false) else t;
    if live[0] == s {
      assert next.nodes[|t.nodes|].row == Row.SessionRow(s.id);
      UnlistedUnder(next, live[1..], ws, entries, k);
      RowStays(next, AddUnlisted(t, live, ws, entries, Under(k)), Row.SessionRow(s.id));
    } else {
      UnlistedHolds(next, live[1..], ws, entries, k, s);
    }
  }

  lemma {:induction false} UnlistedUnder(t: Tree, live: seq<Session>, ws: Workspace, entries: seq<Entry>, k: nat)
    requires t.Valid() && k < |t.nodes|
    ensures var c := AddUnlisted(t, live, ws, entries, Under(k));
            Extends(t, c) && forall i :: |t.nodes| <= i < |c.nodes| ==> c.nodes[i].parent == Under(k)
    decreases |live|
  {
    if live != [] {
      var next := if Unlisted(live[0], ws, entries) then Added(t, Row.SessionRow(live[0].id), Under(k), false) else t;
      UnlistedUnder(next, live[1..], ws, entries, k);
      ExtendsOn(t, next, AddUnlisted(t, live, ws, entries, Under(k)));
    }
  }

  lemma StaysSeated(a: Tree, b: Tree, k: nat, ws: Workspace, entries: seq<Entry>)
    requires Seated(a, k, ws, entries) && b.Valid() && Extends(a, b) && (Apart(a, b, k) || b.projected == a.projected)
    ensures Seated(b, k, ws, entries)
  {
    FindStays(a, b, HeadRow(ws));
    DrawnStays(a, b, k);
    forall e | e in entries
      ensures PlacedUnder(b, k, RowOf(e))
    {
      FindStays(a, b, RowOf(e));
      DrawnStays(a, b, Find(a, RowOf(e)).value);
    }
    if Apart(a, b, k) {
      RowsStay(a, b, k);
    } else {
      UndrawnRowsStay(a, b, k);
    }
  }

  lemma UndrawnRowsStay(a: Tree, b: Tree, k: nat)
    requires a.Valid() && b.Valid() && Extends(a, b) && b.projected == a.projected
    ensures RowsUnder(b, k) == RowsUnder(a, k)
  {
    ChildrenSplit(a, b, k);
    assert b.projected[|a.projected|..] == [];
  }

  /** Apart from its own row, every row of the workspace is drawn under k. */
  ghost predicate AllUnder(t: Tree, k: nat, ws: Workspace, home: Homes) {
    forall i :: 0 <= i < |t.nodes| && i != k && home(t.nodes[i].row) == Some(ws) ==>
      i in t.projected && t.nodes[i].parent == Under(k)
  }

  lemma {:induction false} EntriesSeat(b: Build, entries: seq<Entry>, k: nat, ws: Workspace, home: Homes, more: seq<Row>)
    requires b.tree.Valid() && k < |b.tree.nodes| && AllUnder(b.tree, k, ws, home) && b.rest == AsRows(entries) + more
    ensures var c := PlaceEntries(b, entries, Under(k));
            && c.tree.Valid() && AllUnder(c.tree, k, ws, home)
            && RowsUnder(c.tree, k) == RowsUnder(b.tree, k) + AsRows(entries)
    decreases |entries|
  {
    if entries == [] {
      assert RowsUnder(b.tree, k) + AsRows(entries) == RowsUnder(b.tree, k);
    } else {
      AsRowsOf(entries);
      var next := Place(b, RowOf(entries[0]), Under(k));
      assert b.rest[1..] == AsRows(entries[1..]) + more;
      RowsAdded(b.tree, RowOf(entries[0]), k);
      AddedStaysUnder(b.tree, RowOf(entries[0]), k, ws, home);
      EntriesSeat(next, entries[1..], k, ws, home, more);
      Associate(RowsUnder(b.tree, k), [RowOf(entries[0])], AsRows(entries[1..]));
    }
  }

  lemma AddedStaysUnder(t: Tree, row: Row, k: nat, ws: Workspace, home: Homes)
    requires AllUnder(t, k, ws, home) && k < |t.nodes|
    ensures AllUnder(Added(t, row, Under(k), true), k, ws, home)
  {
    var b := Added(t, row, Under(k), true);
    assert b.projected[|t.projected|] == |t.nodes|;
    forall i | 0 <= i < |b.nodes| && i != k && home(b.nodes[i].row) == Some(ws)
      ensures i in b.projected && b.nodes[i].parent == Under(k)
    {
      if i < |t.nodes| {
        assert b.nodes[i] == t.nodes[i] && i in t.projected;
      }
    }
  }

  lemma SeatedBy(t: Tree, k: nat, ws: Workspace, entries: seq<Entry>, home: Homes)
    requires t.Valid() && k < |t.nodes| && AllUnder(t, k, ws, home) && RowsUnder(t, k) == AsRows(entries)
    requires Find(t, HeadRow(ws)) == Some(k) && k in t.projected
    requires forall e :: e in entries ==> home(RowOf(e)) == Some(ws)
    ensures Seated(t, k, ws, entries)
  {
    forall e | e in entries
      ensures PlacedUnder(t, k, RowOf(e))
    {
      var i := IndexIn(entries, e);
      assert RowsUnder(t, k)[i] == RowOf(e);
      assert t.nodes[Children(t, Under(k))[i]].row == RowOf(e);
      assert t.nodes[k].row == HeadRow(ws) && RowOf(e) != HeadRow(ws);
    }
  }

  /** The first node with this row is under k. */
  ghost predicate FoundUnder(t: Tree, k: nat, row: Row) {
    var i := Find(t, row);
    i.Some? && t.nodes[i.value].parent == Under(k)
  }

  /** So is each of the workspace's sessions, drawn or not. */
  ghost predicate SeatedIn(t: Tree, k: nat, v: View, ws: Workspace) {
    Seated(t, k, ws, v.listed(ws)) && forall s :: s in v.live && s.workspace == ws ==> FoundUnder(t, k, Row.SessionRow(s.id))
  }

  lemma StaysSeatedIn(a: Tree, b: Tree, k: nat, v: View, ws: Workspace)
    requires SeatedIn(a, k, v, ws) && b.Valid() && Extends(a, b) && Apart(a, b, k)
    ensures SeatedIn(b, k, v, ws)
  {
    StaysSeated(a, b, k, ws, v.listed(ws));
    forall s | s in v.live && s.workspace == ws
      ensures FoundUnder(b, k, Row.SessionRow(s.id))
    {
      FindStays(a, b, Row.SessionRow(s.id));
    }
  }

  /** The block of a workspace whose rows come next on display. */
  lemma BlockSeats(b: Build, v: View, ws: Workspace, parent: Parent, home: Homes, more: seq<Row>)
    requires Homed(v, home) && Housed(b.tree, home) && Fits(b.tree, parent) && Foreign(b.tree, ws, home)
    requires b.rest == [HeadRow(ws)] + AsRows(v.listed(ws)) + more
    ensures SeatedIn(PlaceBlock(b, v, ws, parent).tree, |b.tree.nodes|, v, ws)
  {
    var k, entries := |b.tree.nodes|, v.listed(ws);
    var headed := Place(b, HeadRow(ws), parent);
    assert b.rest[1..] == AsRows(entries) + more;
    AddedGrows(b.tree, HeadRow(ws), parent, true, home);
    HeadIsFirst(b.tree, ws, parent, home);
    EntriesSeat(headed, entries, k, ws, home, more);
    EntriesGrow(headed, entries, k, ws, home);
    var c := PlaceEntries(headed, entries, Under(k));
    FindStays(headed.tree, c.tree, HeadRow(ws));
    DrawnStays(headed.tree, c.tree, k);
    SeatedBy(c.tree, k, ws, entries, home);
    UnlistedGrow(c.tree, v.live, ws, entries, k, home);
    StaysSeated(c.tree, PlaceBlock(b, v, ws, parent).tree, k, ws, entries);
    forall s | s in v.live && s.workspace == ws
      ensures FoundUnder(PlaceBlock(b, v, ws, parent).tree, k, Row.SessionRow(s.id))
    {
      SessionIsFound(c.tree, v.live, ws, entries, k, s, home);
    }
  }

  lemma SessionIsFound(t: Tree, live: seq<Session>, ws: Workspace, entries: seq<Entry>, k: nat, s: Session, home: Homes)
    requires Seated(t, k, ws, entries) && AllUnder(t, k, ws, home) && s in live && s.workspace == ws
    requires home(Row.SessionRow(s.id)) == Some(ws)
    ensures FoundUnder(AddUnlisted(t, live, ws, entries, Under(k)), k, Row.SessionRow(s.id))
  {
    var b, row := AddUnlisted(t, live, ws, entries, Under(k)), Row.SessionRow(s.id);
    UnlistedUnder(t, live, ws, entries, k);
    if Entry.SessionRow(s.id) in entries {
      assert PlacedUnder(t, k, RowOf(Entry.SessionRow(s.id)));
      FindStays(t, b, row);
    } else {
      UnlistedHolds(t, live, ws, entries, k, s);
      var i := Find(b, row).value;
      assert t.nodes[k].row == HeadRow(ws) && b.nodes[k] == t.nodes[k];
      if i < |t.nodes| {
        assert b.nodes[i] == t.nodes[i];
      }
    }
  }

  lemma HeadIsFirst(t: Tree, ws: Workspace, parent: Parent, home: Homes)
    requires t.Valid() && Fits(t, parent) && Foreign(t, ws, home) && home(HeadRow(ws)) == Some(ws)
    ensures var b, k := Added(t, HeadRow(ws), parent, true), |t.nodes|;
            && b.Valid() && Find(b, HeadRow(ws)) == Some(k) && k in b.projected
            && AllUnder(b, k, ws, home) && RowsUnder(b, k) == []
  {
    var b, k := Added(t, HeadRow(ws), parent, true), |t.nodes|;
    AddedExtends(t, HeadRow(ws), parent, true);
    assert b.projected[|t.projected|] == k && b.nodes[k].row == HeadRow(ws);
    NothingUnderTheLast(b, k);
  }

  lemma NothingUnderTheLast(t: Tree, k: nat)
    requires t.Valid() && |t.nodes| == k + 1
    ensures RowsUnder(t, k) == []
  {
    AmongNone(t, t.projected, Under(k));
  }

  // ---- The whole tree ----

  /** The project that lists a path first. */
  function ListedBy(projects: seq<Project>, path: string): Option<Project> {
    if projects == [] then None
    else if path in projects[0].checkouts then Some(projects[0])
    else ListedBy(projects[1..], path)
  }

  /** Home is on display, and so is a worktree that is not being deleted while the
      first project to list it is expanded. */
  predicate OnDisplay(v: View, ws: Workspace) {
    match ws
    case None => true
    case Some(path) => v.skip != ws && ListedBy(v.projects, path).Some? && ListedBy(v.projects, path).value.expanded
  }

  lemma CheckoutSeats(b: Build, v: View, paths: seq<string>, project: nat, home: Homes, more: seq<Row>)
    requires Homed(v, home) && Housed(b.tree, home) && project < |b.tree.nodes| && paths != [] && v.skip != Some(paths[0])
    requires Foreign(b.tree, Some(paths[0]), home) && b.rest == CheckoutRows(paths, v.listed) + more
    ensures SeatedIn(PlaceCheckouts(b, v, paths, project).tree, |b.tree.nodes|, v, Some(paths[0]))
  {
    var own, next := Some(paths[0]), PlaceCheckout(b, v, paths[0], project);
    Associate([WorktreeRow(paths[0])] + AsRows(v.listed(own)), CheckoutRows(paths[1..], v.listed), more);
    BlockGrows(b, v, own, Under(project), home);
    BlockSeats(b, v, own, Under(project), home, CheckoutRows(paths[1..], v.listed) + more);
    CheckoutsStaySeated(next, v, paths[1..], project, home, |b.tree.nodes|, own);
  }

  lemma CheckoutsStaySeated(b: Build, v: View, paths: seq<string>, project: nat, home: Homes, k: nat, ws: Workspace)
    requires Homed(v, home) && Housed(b.tree, home) && project < k < |b.tree.nodes| && SeatedIn(b.tree, k, v, ws)
    ensures SeatedIn(PlaceCheckouts(b, v, paths, project).tree, k, v, ws)
  {
    CheckoutsGrow(b, v, paths, project, home);
    StaysSeatedIn(b.tree, PlaceCheckouts(b, v, paths, project).tree, k, v, ws);
  }

  lemma CheckoutPassed(b: Build, v: View, paths: seq<string>, project: nat, path: string, home: Homes, more: seq<Row>)
    requires Homed(v, home) && Housed(b.tree, home) && project < |b.tree.nodes| && Foreign(b.tree, Some(path), home)
    requires paths != [] && paths[0] != path && b.rest == CheckoutRows(paths, v.listed) + more
    ensures var next := PlaceCheckout(b, v, paths[0], project);
            && Housed(next.tree, home) && project < |next.tree.nodes| && Foreign(next.tree, Some(path), home)
            && next.rest == CheckoutRows(paths[1..], v.listed) + more
  {
    Associate([WorktreeRow(paths[0])] + AsRows(v.listed(Some(paths[0]))), CheckoutRows(paths[1..], v.listed), more);
    CheckoutMeets(b, v, paths[0], project, CheckoutRows(paths[1..], v.listed) + more);
    CheckoutKeeps(b, v, paths[0], project, path, home);
  }

  lemma CheckoutKeeps(b: Build, v: View, other: string, project: nat, path: string, home: Homes)
    requires Homed(v, home) && Housed(b.tree, home) && project < |b.tree.nodes| && Foreign(b.tree, Some(path), home) && other != path
    ensures var next := PlaceCheckout(b, v, other, project);
            Housed(next.tree, home) && project < |next.tree.nodes| && Foreign(next.tree, Some(path), home)
  {
    if v.skip != Some(other) {
      BlockGrows(b, v, Some(other), Under(project), home);
    }
  }

  lemma {:induction false} CheckoutsSeat(b: Build, v: View, paths: seq<string>, project: nat, path: string, home: Homes, more: seq<Row>)
    returns (k: nat)
    requires Homed(v, home) && Housed(b.tree, home) && project < |b.tree.nodes| && Foreign(b.tree, Some(path), home)
    requires path in paths && v.skip != Some(path) && b.rest == CheckoutRows(paths, v.listed) + more
    ensures SeatedIn(PlaceCheckouts(b, v, paths, project).tree, k, v, Some(path))
    decreases |paths|
  {
    if paths[0] == path {
      k := |b.tree.nodes|;
      CheckoutSeats(b, v, paths, project, home, more);
    } else {
      CheckoutPassed(b, v, paths, project, path, home, more);
      k := CheckoutsSeat(PlaceCheckout(b, v, paths[0], project), v, paths[1..], project, path, home, more);
    }
  }

  lemma ProjectStarts(b: Build, p: Project, path: string, home: Homes)
    requires Housed(b.tree, home) && Foreign(b.tree, Some(path), home) && home(ProjectRow(p.root)).None?
    ensures var next := Place(b, ProjectRow(p.root), Root);
            Housed(next.tree, home) && Foreign(next.tree, Some(path), home) && |b.tree.nodes| < |next.tree.nodes|
  {
    AddedGrows(b.tree, ProjectRow(p.root), Root, b.rest != [] && b.rest[0] == ProjectRow(p.root), home);
  }

  lemma ProjectSeats(b: Build, v: View, p: Project, path: string, home: Homes, more: seq<Row>) returns (k: nat)
    requires Homed(v, home) && Housed(b.tree, home) && Foreign(b.tree, Some(path), home)
    requires path in p.checkouts && p.expanded && v.skip != Some(path) && b.rest == RowsOfProject(p, v.listed) + more
    ensures SeatedIn(PlaceProject(b, v, p).tree, k, v, Some(path))
  {
    ProjectStarts(b, p, path, home);
    ProjectIsMet(b, p, v.listed, more);
    k := CheckoutsSeat(Place(b, ProjectRow(p.root), Root), v, p.checkouts, |b.tree.nodes|, path, home, more);
  }

  lemma {:induction false} ProjectsSeat(b: Build, v: View, projects: seq<Project>, path: string, home: Homes) returns (k: nat)
    requires Homed(v, home) && Housed(b.tree, home) && Foreign(b.tree, Some(path), home) && v.skip != Some(path)
    requires ListedBy(projects, path).Some? && ListedBy(projects, path).value.expanded
    requires b.rest == ProjectRows(projects, v.listed)
    ensures SeatedIn(PlaceProjects(b, v, projects).tree, k, v, Some(path))
    decreases |projects|
  {
    var p, next, behind := projects[0], PlaceProject(b, v, projects[0]), ProjectRows(projects[1..], v.listed);
    ProjectGrows(b, v, p, home);
    if path in p.checkouts {
      k := ProjectSeats(b, v, p, path, home, behind);
      ProjectsGrow(next, v, projects[1..], home);
      StaysSeatedIn(next.tree, PlaceProjects(b, v, projects).tree, k, v, Some(path));
    } else {
      ProjectsStartThere(projects[1..], v.listed);
      ProjectMeets(b, v, p, behind);
      k := ProjectsSeat(next, v, projects[1..], path, home);
    }
  }

  lemma BuildSeats(v: View, ws: Workspace, home: Homes) returns (k: nat)
    requires Homed(v, home) && OnDisplay(v, ws)
    ensures var b := BuildOf(v, VisibleRows(v.projects, v.listed));
            Housed(b.tree, home) && SeatedIn(b.tree, k, v, ws)
  {
    var rows := VisibleRows(v.projects, v.listed);
    var start := Nothing(rows);
    var first := PlaceBlock(start, v, None, Root);
    assert rows == [HeadRow(None)] + AsRows(v.listed(None)) + ProjectRows(v.projects, v.listed);
    BlockSeats(start, v, None, Root, home, ProjectRows(v.projects, v.listed));
    BlockGrows(start, v, None, Root, home);
    BlockMeets(start, v, None, Root, ProjectRows(v.projects, v.listed));
    ProjectsGrow(first, v, v.projects, home);
    match ws
    case None =>
      k := 0;
      StaysSeatedIn(first.tree, BuildOf(v, rows).tree, k, v, None);
    case Some(path) =>
      k := ProjectsSeat(first, v, v.projects, path, home);
  }

  lemma OnlyItsOwnSessions(t: Tree, k: nat, v: View, ws: Workspace, home: Homes)
    requires Homed(v, home) && Housed(t, home) && k < |t.nodes| && t.nodes[k].row == HeadRow(ws) && HasSession(t, k)
    ensures Live(v.live, ws)
  {
    var i :| 0 <= i < |t.nodes| && t.nodes[i].row.SessionRow? && t.nodes[i].parent == Under(k);
    assert NodeIsHoused(t, i, home);
    assert home(Row.SessionRow(t.nodes[i].row.id)) == Some(ws);
    assert Holds(v.live, ws, t.nodes[i].row.id);
  }

  lemma FilteringAside(t: Tree, filtering: bool, home: Homes)
    requires Housed(t, home)
    ensures Grown(t, t.(filtering := filtering), home)
  {
    forall i | 0 <= i < |t.nodes|
      ensures NodeIsHoused(t.(filtering := filtering), i, home)
    {
      assert NodeIsHoused(t, i, home);
    }
  }

  lemma FoundHasSession(t: Tree, k: nat, v: View, ws: Workspace)
    requires SeatedIn(t, k, v, ws) && Live(v.live, ws)
    ensures HasSession(t, k)
  {
    var i :| 0 <= i < |v.live| && v.live[i].workspace == ws;
    assert FoundUnder(t, k, Row.SessionRow(v.live[i].id));
  }

  /** In the tree of the whole display a workspace on it is drawn, with exactly
      the rows listed for it, each of its sessions is found under it, listed or
      not, and it has a session under it exactly when one is open there. */
  lemma SnapshotSeats(v: View, ws: Workspace, home: Homes, filtering: bool) returns (k: nat)
    requires Homed(v, home) && OnDisplay(v, ws)
    ensures var t := SnapshotOf(v, VisibleRows(v.projects, v.listed), filtering);
            && Housed(t, home) && Seated(t, k, ws, v.listed(ws)) && (HasSession(t, k) <==> Live(v.live, ws))
            && forall s :: s in v.live && s.workspace == ws ==> FoundUnder(t, k, Row.SessionRow(s.id))
  {
    var b := BuildOf(v, VisibleRows(v.projects, v.listed));
    var c, t := AddDetached(b.tree, v.live, b.done), SnapshotOf(v, VisibleRows(v.projects, v.listed), filtering);
    k := BuildSeats(v, ws, home);
    DetachedGrow(b.tree, v.live, b.done, home);
    FilteringAside(c, filtering, home);
    ExtendsOn(b.tree, c, t);
    StaysSeatedIn(b.tree, t, k, v, ws);
    if Live(v.live, ws) {
      FoundHasSession(t, k, v, ws);
    }
    if HasSession(t, k) {
      OnlyItsOwnSessions(t, k, v, ws, home);
    }
  }

  /** Whatever is displayed, filtered or not, a session's row is an open session,
      under its own workspace if anywhere. */
  lemma SnapshotIsHoused(v: View, rows: seq<Row>, filtering: bool, home: Homes)
    requires Homed(v, home)
    ensures Housed(SnapshotOf(v, rows, filtering), home)
  {
    var start := Nothing(rows);
    BlockGrows(start, v, None, Root, home);
    ProjectsGrow(PlaceBlock(start, v, None, Root), v, v.projects, home);
    var b := BuildOf(v, rows);
    DetachedGrow(b.tree, v.live, b.done, home);
    FilteringAside(AddDetached(b.tree, v.live, b.done), filtering, home);
  }
}
