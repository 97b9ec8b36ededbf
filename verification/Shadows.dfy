/** A worktree that a collapsed project lists before an expanded one: its rows are
    drawn under the second, and its nodes are first met, undrawn, under the first. */
module Shadows {
  import opened DisplayOrder
  import opened Options
  import opened Sessions
  import opened SidebarFocus
  import opened SnapshotRows
  import opened Snapshots

  /** Some expanded project lists the path, but not the first to list it. */
  predicate Shadowed(v: View, ws: Workspace) {
    && ws.Some? && v.skip != ws && ListedBy(v.projects, ws.value).Some? && !ListedBy(v.projects, ws.value).value.expanded
    && exists i :: 0 <= i < |v.projects| && v.projects[i].expanded && ws.value in v.projects[i].checkouts
  }

  // ---- Every project is drawn ----

  ghost predicate ProjectsDrawn(t: Tree) {
    forall i :: 0 <= i < |t.nodes| && t.nodes[i].row.ProjectRow? ==> i in t.projected
  }

  /** Nodes were added, but none for a project. */
  ghost predicate AddsNoProject(a: Tree, b: Tree) {
    Extends(a, b) && forall i :: |a.nodes| <= i < |b.nodes| ==> !b.nodes[i].row.ProjectRow?
  }

  lemma StillDrawn(a: Tree, b: Tree)
    requires ProjectsDrawn(a) && AddsNoProject(a, b)
    ensures ProjectsDrawn(b)
  {
    forall i | 0 <= i < |b.nodes| && b.nodes[i].row.ProjectRow?
      ensures i in b.projected
    {
      DrawnStays(a, b, i);
    }
  }

  lemma {:induction false} EntriesAddNoProject(b: Build, entries: seq<Entry>, parent: Parent)
    requires b.tree.Valid() && Fits(b.tree, parent)
    ensures var c := PlaceEntries(b, entries, parent);
            c.tree.Valid() && AddsNoProject(b.tree, c.tree)
    decreases |entries|
  {
    if entries != [] {
      var next := Place(b, RowOf(entries[0]), parent);
      AddedExtends(b.tree, RowOf(entries[0]), parent, b.rest != [] && b.rest[0] == RowOf(entries[0]));
      EntriesAddNoProject(next, entries[1..], parent);
      ExtendsOn(b.tree, next.tree, PlaceEntries(b, entries, parent).tree);
    }
  }

  lemma {:induction false} UnlistedAddNoProject(t: Tree, live: seq<Session>, ws: Workspace, entries: seq<Entry>, parent: Parent)
    requires t.Valid() && Fits(t, parent)
    ensures var c := AddUnlisted(t, live, ws, entries, parent);
            c.Valid() && AddsNoProject(t, c)
    decreases |live|
  {
    if live != [] {
      var row := Row.SessionRow(live[0].id);
      var next := if Unlisted(live[0], ws, entries) then Added(t, row, parent, false) else t;
      AddedExtends(t, row, parent, false);
      UnlistedAddNoProject(next, live[1..], ws, entries, parent);
      ExtendsOn(t, next, AddUnlisted(t, live, ws, entries, parent));
    }
  }

  lemma BlockAddsNoProject(b: Build, v: View, ws: Workspace, parent: Parent)
    requires b.tree.Valid() && Fits(b.tree, parent)
    ensures var c := PlaceBlock(b, v, ws, parent);
            c.tree.Valid() && AddsNoProject(b.tree, c.tree)
  {
    var k, headed := |b.tree.nodes|, Place(b, HeadRow(ws), parent);
    AddedExtends(b.tree, HeadRow(ws), parent, b.rest != [] && b.rest[0] == HeadRow(ws));
    EntriesAddNoProject(headed, v.listed(ws), Under(k));
    var c := PlaceEntries(headed, v.listed(ws), Under(k));
    UnlistedAddNoProject(c.tree, v.live, ws, v.listed(ws), Under(k));
    ExtendsOn(b.tree, headed.tree, c.tree);
    ExtendsOn(b.tree, c.tree, PlaceBlock(b, v, ws, parent).tree);
  }

  lemma {:induction false} CheckoutsAddNoProject(b: Build, v: View, paths: seq<string>, project: nat)
    requires b.tree.Valid() && project < |b.tree.nodes|
    ensures var c := PlaceCheckouts(b, v, paths, project);
            c.tree.Valid() && AddsNoProject(b.tree, c.tree)
    decreases |paths|
  {
    if paths != [] {
      var next := PlaceCheckout(b, v, paths[0], project);
      BlockAddsNoProject(b, v, Some(paths[0]), Under(project));
      CheckoutsAddNoProject(next, v, paths[1..], project);
      ExtendsOn(b.tree, next.tree, PlaceCheckouts(b, v, paths, project).tree);
    }
  }

  lemma ProjectIsDrawn(b: Build, v: View, p: Project, more: seq<Row>)
    requires b.tree.Valid() && ProjectsDrawn(b.tree) && b.rest == RowsOfProject(p, v.listed) + more
    ensures var c := PlaceProject(b, v, p);
            c.tree.Valid() && ProjectsDrawn(c.tree)
  {
    var next := Place(b, ProjectRow(p.root), Root);
    assert b.rest[0] == ProjectRow(p.root);
    AddedExtends(b.tree, ProjectRow(p.root), Root, true);
    assert next.tree.projected[|b.tree.projected|] == |b.tree.nodes|;
    forall i | 0 <= i < |next.tree.nodes| && next.tree.nodes[i].row.ProjectRow?
      ensures i in next.tree.projected
    {
      if i < |b.tree.nodes| {
        DrawnStays(b.tree, next.tree, i);
      }
    }
    CheckoutsAddNoProject(next, v, p.checkouts, |b.tree.nodes|);
    StillDrawn(next.tree, PlaceProject(b, v, p).tree);
  }

  lemma {:induction false} AllProjectsDrawn(b: Build, v: View, projects: seq<Project>)
    requires b.tree.Valid() && ProjectsDrawn(b.tree) && b.rest == ProjectRows(projects, v.listed)
    ensures var c := PlaceProjects(b, v, projects);
            c.tree.Valid() && ProjectsDrawn(c.tree)
    decreases |projects|
  {
    if projects != [] {
      ProjectsStartThere(projects[1..], v.listed);
      ProjectMeets(b, v, projects[0], ProjectRows(projects[1..], v.listed));
      ProjectIsDrawn(b, v, projects[0], ProjectRows(projects[1..], v.listed));
      AllProjectsDrawn(PlaceProject(b, v, projects[0]), v, projects[1..]);
    }
  }

  // ---- A workspace that is not drawn where it is first met ----

  /** The workspace's row is first met at k, not drawn and with nothing drawn under
      it, under a project's row at p; so is each of its sessions. */
  ghost predicate Hidden(t: Tree, k: nat, p: nat, v: View, path: string, root: string) {
    && t.Valid() && p < k < |t.nodes| && Find(t, WorktreeRow(path)) == Some(k) && k !in t.projected
    && t.nodes[k].parent == Under(p) && t.nodes[p].row == ProjectRow(root) && RowsUnder(t, k) == []
    && forall s :: s in v.live && s.workspace == Some(path) ==> FoundUnder(t, k, Row.SessionRow(s.id))
  }

  lemma StaysHidden(a: Tree, b: Tree, k: nat, p: nat, v: View, path: string, root: string)
    requires Hidden(a, k, p, v, path, root) && b.Valid() && Extends(a, b) && Apart(a, b, k)
    ensures Hidden(b, k, p, v, path, root)
  {
    FindStays(a, b, WorktreeRow(path));
    RowsStay(a, b, k);
    forall s | s in v.live && s.workspace == Some(path)
      ensures FoundUnder(b, k, Row.SessionRow(s.id))
    {
      FindStays(a, b, Row.SessionRow(s.id));
    }
  }

  lemma {:induction false} EntriesStayHidden(b: Build, entries: seq<Entry>, k: nat)
    requires b.tree.Valid() && k < |b.tree.nodes| && AtProject(b.rest)
    ensures var c := PlaceEntries(b, entries, Under(k));
            && c.tree.Valid() && Extends(b.tree, c.tree) && c.tree.projected == b.tree.projected
            && (forall i :: |b.tree.nodes| <= i < |c.tree.nodes| ==> c.tree.nodes[i].parent == Under(k))
            && forall e :: e in entries ==> HasNode(c.tree, RowOf(e))
    decreases |entries|
  {
    if entries != [] {
      var next, c := Place(b, RowOf(entries[0]), Under(k)), PlaceEntries(b, entries, Under(k));
      AddedExtends(b.tree, RowOf(entries[0]), Under(k), false);
      EntriesStayHidden(next, entries[1..], k);
      ExtendsOn(b.tree, next.tree, c.tree);
      assert next.tree.nodes[|b.tree.nodes|].row == RowOf(entries[0]);
      RowStays(next.tree, c.tree, RowOf(entries[0]));
      assert entries == [entries[0]] + entries[1..];
    }
  }

  /** The nodes of a collapsed project's worktree. */
  lemma BlockIsHidden(b: Build, v: View, path: string, p: nat, root: string, home: Homes)
    requires Homed(v, home) && Housed(b.tree, home) && p < |b.tree.nodes| && b.tree.nodes[p].row == ProjectRow(root)
    requires Foreign(b.tree, Some(path), home) && AtProject(b.rest)
    ensures Hidden(PlaceBlock(b, v, Some(path), Under(p)).tree, |b.tree.nodes|, p, v, path, root)
  {
    var ws, k, entries := Some(path), |b.tree.nodes|, v.listed(Some(path));
    var headed := Place(b, WorktreeRow(path), Under(p));
    AddedExtends(b.tree, WorktreeRow(path), Under(p), false);
    NothingUnderTheLast(headed.tree, k);
    assert headed.tree.nodes[k].row == HeadRow(ws) && headed.tree.nodes[k].parent == Under(p);
    assert Find(headed.tree, WorktreeRow(path)) == Some(k);
    EntriesStayHidden(headed, entries, k);
    var c, d := PlaceEntries(headed, entries, Under(k)).tree, PlaceBlock(b, v, ws, Under(p)).tree;
    UnlistedUnder(c, v.live, ws, entries, k);
    BlockGrows(b, v, ws, Under(p), home);
    UndrawnStay(c, v.live, ws, entries, k);
    ExtendsOn(headed.tree, c, d);
    FindStays(headed.tree, d, WorktreeRow(path));
    UndrawnRowsStay(headed.tree, d, k);
    forall s | s in v.live && s.workspace == ws
      ensures FoundUnder(d, k, Row.SessionRow(s.id))
    {
      HiddenIsFound(b.tree, headed.tree, c, d, v, ws, k, s, home);
    }
  }

  lemma {:induction false} UndrawnStay(t: Tree, live: seq<Session>, ws: Workspace, entries: seq<Entry>, k: nat)
    ensures AddUnlisted(t, live, ws, entries, Under(k)).projected == t.projected
    decreases |live|
  {
    if live != [] {
      UndrawnStay(if Unlisted(live[0], ws, entries) then Added(t, Row.SessionRow(live[0].id), Under(k), false) else t,
                  live[1..], ws, entries, k);
    }
  }

  lemma HiddenIsFound(a: Tree, headed: Tree, c: Tree, d: Tree, v: View, ws: Workspace, k: nat, s: Session, home: Homes)
    requires c.Valid() && Extends(headed, c) && k == |a.nodes| && Foreign(a, ws, home) && home(Row.SessionRow(s.id)) == Some(ws)
    requires |headed.nodes| == k + 1 && headed.nodes[..k] == a.nodes && headed.nodes[k].row == HeadRow(ws)
    requires forall i :: |headed.nodes| <= i < |c.nodes| ==> c.nodes[i].parent == Under(k)
    requires forall e :: e in v.listed(ws) ==> HasNode(c, RowOf(e))
    requires d == AddUnlisted(c, v.live, ws, v.listed(ws), Under(k)) && s in v.live && s.workspace == ws
    ensures FoundUnder(d, k, Row.SessionRow(s.id))
  {
    var row := Row.SessionRow(s.id);
    UnlistedUnder(c, v.live, ws, v.listed(ws), k);
    if Entry.SessionRow(s.id) in v.listed(ws) {
      assert HasNode(c, RowOf(Entry.SessionRow(s.id)));
      RowStays(c, d, row);
    } else {
      UnlistedHolds(c, v.live, ws, v.listed(ws), k, s);
    }
    forall i | 0 <= i < |headed.nodes|
      ensures d.nodes[i].row != row
    {
      assert d.nodes[i] == headed.nodes[i];
      if i < k {
        assert headed.nodes[i] == headed.nodes[..k][i] == a.nodes[i];
      }
    }
    var i := Find(d, row).value;
    if i < |c.nodes| {
      assert d.nodes[i] == c.nodes[i];
    }
  }

  lemma CheckoutIsHidden(b: Build, v: View, paths: seq<string>, project: nat, root: string, home: Homes)
    requires Homed(v, home) && Housed(b.tree, home) && project < |b.tree.nodes| && b.tree.nodes[project].row == ProjectRow(root)
    requires paths != [] && v.skip != Some(paths[0]) && Foreign(b.tree, Some(paths[0]), home) && AtProject(b.rest)
    ensures Hidden(PlaceCheckouts(b, v, paths, project).tree, |b.tree.nodes|, project, v, paths[0], root)
  {
    var next := PlaceCheckout(b, v, paths[0], project);
    BlockIsHidden(b, v, paths[0], project, root, home);
    BlockGrows(b, v, Some(paths[0]), Under(project), home);
    CheckoutsGrow(next, v, paths[1..], project, home);
    StaysHidden(next.tree, PlaceCheckouts(b, v, paths, project).tree, |b.tree.nodes|, project, v, paths[0], root);
  }

  lemma CheckoutMisses(b: Build, v: View, path: string, project: nat)
    requires AtProject(b.rest)
    ensures PlaceCheckout(b, v, path, project).rest == b.rest
  {
    EntriesMiss(Place(b, WorktreeRow(path), Under(project)), v.listed(Some(path)), Under(|b.tree.nodes|));
  }

  lemma {:induction false} CheckoutsHide(b: Build, v: View, paths: seq<string>, project: nat, path: string, root: string, home: Homes)
    returns (k: nat)
    requires Homed(v, home) && Housed(b.tree, home) && project < |b.tree.nodes| && b.tree.nodes[project].row == ProjectRow(root)
    requires path in paths && v.skip != Some(path) && Foreign(b.tree, Some(path), home) && AtProject(b.rest)
    ensures Hidden(PlaceCheckouts(b, v, paths, project).tree, k, project, v, path, root)
    decreases |paths|
  {
    if paths[0] == path {
      k := |b.tree.nodes|;
      CheckoutIsHidden(b, v, paths, project, root, home);
    } else {
      var next := PlaceCheckout(b, v, paths[0], project);
      CheckoutMisses(b, v, paths[0], project);
      CheckoutKeeps(b, v, paths[0], project, path, home);
      RowIsKept(b, v, paths[0], project, home);
      k := CheckoutsHide(next, v, paths[1..], project, path, root, home);
    }
  }

  lemma RowIsKept(b: Build, v: View, path: string, project: nat, home: Homes)
    requires Homed(v, home) && Housed(b.tree, home) && project < |b.tree.nodes|
    ensures var next := PlaceCheckout(b, v, path, project).tree;
            project < |next.nodes| && next.nodes[project] == b.tree.nodes[project]
  {
    if v.skip != Some(path) {
      BlockGrows(b, v, Some(path), Under(project), home);
    }
  }

  lemma ProjectHides(b: Build, v: View, p: Project, path: string, home: Homes, more: seq<Row>) returns (k: nat, at: nat)
    requires Homed(v, home) && Housed(b.tree, home) && Foreign(b.tree, Some(path), home)
    requires path in p.checkouts && !p.expanded && v.skip != Some(path)
    requires b.rest == RowsOfProject(p, v.listed) + more && AtProject(more)
    ensures Hidden(PlaceProject(b, v, p).tree, k, at, v, path, p.root)
  {
    var next := Place(b, ProjectRow(p.root), Root);
    at := |b.tree.nodes|;
    ProjectStarts(b, p, path, home);
    ProjectIsMet(b, p, v.listed, more);
    assert next.rest == more && next.tree.nodes[at].row == ProjectRow(p.root);
    k := CheckoutsHide(next, v, p.checkouts, at, path, p.root, home);
  }

  lemma {:induction false} ProjectsHide(b: Build, v: View, projects: seq<Project>, path: string, home: Homes) returns (k: nat, at: nat)
    requires Homed(v, home) && Housed(b.tree, home) && Foreign(b.tree, Some(path), home) && v.skip != Some(path)
    requires ListedBy(projects, path).Some? && !ListedBy(projects, path).value.expanded
    requires b.rest == ProjectRows(projects, v.listed)
    ensures Hidden(PlaceProjects(b, v, projects).tree, k, at, v, path, ListedBy(projects, path).value.root)
    decreases |projects|
  {
    var p, next, behind := projects[0], PlaceProject(b, v, projects[0]), ProjectRows(projects[1..], v.listed);
    ProjectsStartThere(projects[1..], v.listed);
    ProjectGrows(b, v, p, home);
    if path in p.checkouts {
      k, at := ProjectHides(b, v, p, path, home, behind);
      ProjectsGrow(next, v, projects[1..], home);
      StaysHidden(next.tree, PlaceProjects(b, v, projects).tree, k, at, v, path, p.root);
    } else {
      ProjectMeets(b, v, p, behind);
      k, at := ProjectsHide(next, v, projects[1..], path, home);
    }
  }

  lemma BuildHides(v: View, path: string, home: Homes) returns (k: nat, at: nat)
    requires Homed(v, home) && Shadowed(v, Some(path))
    ensures var b := BuildOf(v, VisibleRows(v.projects, v.listed));
            && Housed(b.tree, home) && ProjectsDrawn(b.tree)
            && Hidden(b.tree, k, at, v, path, ListedBy(v.projects, path).value.root)
  {
    var rows := VisibleRows(v.projects, v.listed);
    var start, first := Nothing(rows), PlaceBlock(Nothing(rows), v, None, Root);
    BlockMeets(start, v, None, Root, ProjectRows(v.projects, v.listed));
    BlockGrows(start, v, None, Root, home);
    BlockAddsNoProject(start, v, None, Root);
    StillDrawn(start.tree, first.tree);
    AllProjectsDrawn(first, v, v.projects);
    ProjectsGrow(first, v, v.projects, home);
    k, at := ProjectsHide(first, v, v.projects, path, home);
  }

  lemma {:induction false} DetachedAddNoProject(t: Tree, live: seq<Session>, done: set<Workspace>)
    requires t.Valid()
    ensures var c := AddDetached(t, live, done);
            c.Valid() && AddsNoProject(t, c)
    decreases |live|
  {
    if live != [] {
      var next := if live[0].workspace in done then t else Added(t, Row.SessionRow(live[0].id), Parent.Detached, false);
      AddedExtends(t, Row.SessionRow(live[0].id), Parent.Detached, false);
      DetachedAddNoProject(next, live[1..], done);
      ExtendsOn(t, next, AddDetached(t, live, done));
    }
  }

  /** In the tree of the whole display such a workspace is first met undrawn, under
      the row of the collapsed project, which is drawn. */
  lemma SnapshotHides(v: View, path: string, home: Homes, filtering: bool) returns (k: nat, at: nat)
    requires Homed(v, home) && Shadowed(v, Some(path))
    ensures var t, root := SnapshotOf(v, VisibleRows(v.projects, v.listed), filtering), ListedBy(v.projects, path).value.root;
            Housed(t, home) && Hidden(t, k, at, v, path, root) && t.Draws(ProjectRow(root))
  {
    var b := BuildOf(v, VisibleRows(v.projects, v.listed));
    var c, t := AddDetached(b.tree, v.live, b.done), SnapshotOf(v, VisibleRows(v.projects, v.listed), filtering);
    k, at := BuildHides(v, path, home);
    DetachedGrow(b.tree, v.live, b.done, home);
    DetachedAddNoProject(b.tree, v.live, b.done);
    FilteringAside(c, filtering, home);
    ExtendsOn(b.tree, c, t);
    StaysHidden(b.tree, t, k, at, v, path, ListedBy(v.projects, path).value.root);
    StillDrawn(b.tree, t);
    assert t.nodes[at].row == ProjectRow(ListedBy(v.projects, path).value.root);
  }

  // ---- Cursors there ----

  /** A cursor on a session there that has closed climbs to the project's row. */
  lemma ClosedThereClimbs(prev: Tree, next: Tree, k: nat, p: nat, there: nat, at: nat, v: View, w: View, path: string, root: string,
                          id: nat, anchor: Option<Row>)
    requires Hidden(prev, k, p, v, path, root) && Hidden(next, there, at, w, path, root) && next.Draws(ProjectRow(root))
    requires FoundUnder(prev, k, Row.SessionRow(id)) && Find(next, Row.SessionRow(id)).None? && !next.filtering
    ensures Repair(prev, next, Some(Row.SessionRow(id)), anchor) == Repaired(Some(ProjectRow(root)), None, None)
  {
    var removed := Find(prev, Row.SessionRow(id)).value;
    assert Children(prev, Under(k)) == [] by {
      assert |Children(prev, Under(k))| == |RowsUnder(prev, k)|;
    }
    assert Slide(prev, next, removed).None?;
    assert prev.nodes[k].row == WorktreeRow(path);
    ClimbsToTheProject(prev, next, k, p, path, root);
  }

  lemma ClimbsToTheProject(t: Tree, next: Tree, k: nat, p: nat, path: string, root: string)
    requires t.Valid() && next.Valid() && p < k < |t.nodes| && t.nodes[k].row == WorktreeRow(path)
    requires t.nodes[k].parent == Under(p) && t.nodes[p].row == ProjectRow(root)
    requires !next.Draws(WorktreeRow(path)) && next.Draws(ProjectRow(root))
    ensures Climb(t, next, Under(k)) == Some(ProjectRow(root))
  {
  }

  /** And so does one on a session that is open, anchored to it. */
  lemma OpenThereClimbs(prev: Tree, next: Tree, k: nat, p: nat, v: View, path: string, root: string, id: nat, anchor: Option<Row>)
    requires prev.Valid() && Hidden(next, k, p, v, path, root) && next.Draws(ProjectRow(root)) && !next.filtering
    requires FoundUnder(next, k, Row.SessionRow(id))
    ensures Repair(prev, next, Some(Row.SessionRow(id)), anchor)
         == Repaired(Some(ProjectRow(root)), Some(Row.SessionRow(id)), None)
  {
    var i := Find(next, Row.SessionRow(id)).value;
    assert |Children(next, Under(k))| == |RowsUnder(next, k)|;
    if i in next.projected {
      AmongHolds(next, next.projected, Under(k), i);
    }
    assert next.nodes[k].row == WorktreeRow(path);
    ClimbsToTheProject(next, next, k, p, path, root);
  }
}
