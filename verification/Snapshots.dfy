/** The tree a cursor is repaired over, built from the projects, the open sessions
    and the rows on display. */
module Snapshots {
  import opened DisplayOrder
  import opened Options
  import opened Seqs
  import opened Sessions
  import opened SidebarFocus

  datatype Project = Project(root: string, checkouts: seq<string>, expanded: bool)

  /** The rows listed under each workspace. */
  type Listings = Workspace -> seq<Entry>

  function RowOf(e: Entry): Row {
    match e
    case SessionRow(id) => Row.SessionRow(id)
    case PaneRow(pane) => Row.PaneRow(pane)
  }

  function AsRows(entries: seq<Entry>): seq<Row> {
    Map(entries, e => RowOf(e))
  }

  function HeadRow(ws: Workspace): Row {
    match ws
    case None => HomeRow
    case Some(path) => WorktreeRow(path)
  }

  // ---- The rows on display ----

  function VisibleRows(projects: seq<Project>, listed: Listings): seq<Row> {
    [HomeRow] + AsRows(listed(None)) + ProjectRows(projects, listed)
  }

  function ProjectRows(projects: seq<Project>, listed: Listings): seq<Row> {
    if projects == [] then [] else RowsOfProject(projects[0], listed) + ProjectRows(projects[1..], listed)
  }

  function RowsOfProject(p: Project, listed: Listings): seq<Row> {
    [ProjectRow(p.root)] + if p.expanded then CheckoutRows(p.checkouts, listed) else []
  }

  function CheckoutRows(paths: seq<string>, listed: Listings): seq<Row> {
    if paths == [] then []
    else [WorktreeRow(paths[0])] + AsRows(listed(Some(paths[0]))) + CheckoutRows(paths[1..], listed)
  }

  method ListVisibleRows(projects: seq<Project>, listed: Listings) returns (rows: seq<Row>)
    ensures rows == VisibleRows(projects, listed)
  {
    rows := [HomeRow] + AsRows(listed(None));
    for i := 0 to |projects|
      invariant rows + ProjectRows(projects[i..], listed) == VisibleRows(projects, listed)
    {
      assert projects[i..][1..] == projects[i + 1..];
      Associate(rows, RowsOfProject(projects[i], listed), ProjectRows(projects[i + 1..], listed));
      var own := ListProject(projects[i], listed);
      rows := rows + own;
    }
  }

  method ListProject(p: Project, listed: Listings) returns (rows: seq<Row>)
    ensures rows == RowsOfProject(p, listed)
  {
    rows := [ProjectRow(p.root)];
    if p.expanded {
      for i := 0 to |p.checkouts|
        invariant rows + CheckoutRows(p.checkouts[i..], listed) == RowsOfProject(p, listed)
      {
        assert p.checkouts[i..][1..] == p.checkouts[i + 1..];
        rows := rows + [WorktreeRow(p.checkouts[i])] + AsRows(listed(Some(p.checkouts[i])));
      }
    }
  }

  // ---- Building the tree ----

  /** What a snapshot is built from; a worktree being deleted is skipped. */
  datatype View = View(projects: seq<Project>, live: seq<Session>, listed: Listings, skip: Option<string>)

  /** The tree so far, the displayed rows not yet met, and the workspaces done. */
  datatype Build = Build(tree: Tree, rest: seq<Row>, done: set<Workspace>)

  function Added(t: Tree, row: Row, parent: Parent, drawn: bool): Tree {
    Tree(t.nodes + [Node(row, parent)], if drawn then t.projected + [|t.nodes|] else t.projected, t.filtering)
  }

  /** A node is drawn if and only if the display has its row next. */
  function Place(b: Build, row: Row, parent: Parent): Build {
    var drawn := b.rest != [] && b.rest[0] == row;
    Build(Added(b.tree, row, parent, drawn), if drawn then b.rest[1..] else b.rest, b.done)
  }

  function PlaceEntries(b: Build, entries: seq<Entry>, parent: Parent): Build
    decreases |entries|
  {
    if entries == [] then b else PlaceEntries(Place(b, RowOf(entries[0]), parent), entries[1..], parent)
  }

  predicate Unlisted(s: Session, ws: Workspace, entries: seq<Entry>) {
    s.workspace == ws && Entry.SessionRow(s.id) !in entries
  }

  /** Sessions without a row are in the tree, but not drawn. */
  function AddUnlisted(t: Tree, live: seq<Session>, ws: Workspace, entries: seq<Entry>, parent: Parent): Tree
    decreases |live|
  {
    if live == [] then t
    else
      AddUnlisted(if Unlisted(live[0], ws, entries) then Added(t, Row.SessionRow(live[0].id), parent, false) else t,
                  live[1..], ws, entries, parent)
  }

  function PlaceWorkspace(b: Build, v: View, ws: Workspace, parent: Parent): Build {
    var c := PlaceEntries(b, v.listed(ws), parent);
    Build(AddUnlisted(c.tree, v.live, ws, v.listed(ws), parent), c.rest, c.done + {ws})
  }

  /** A workspace's own row with everything under it. */
  function PlaceBlock(b: Build, v: View, ws: Workspace, parent: Parent): Build {
    PlaceWorkspace(Place(b, HeadRow(ws), parent), v, ws, Under(|b.tree.nodes|))
  }

  function SkipEntries(rest: seq<Row>, entries: seq<Entry>): seq<Row>
    decreases |entries|
  {
    if entries == [] || rest == [] || rest[0] != RowOf(entries[0]) then rest
    else SkipEntries(rest[1..], entries[1..])
  }

  function SkipRows(rest: seq<Row>, path: string, entries: seq<Entry>): seq<Row> {
    if rest == [] || rest[0] != WorktreeRow(path) then rest else SkipEntries(rest[1..], entries)
  }

  function PlaceCheckout(b: Build, v: View, path: string, project: nat): Build {
    if v.skip == Some(path) then b.(rest := SkipRows(b.rest, path, v.listed(Some(path))))
    else PlaceBlock(b, v, Some(path), Under(project))
  }

  function PlaceCheckouts(b: Build, v: View, paths: seq<string>, project: nat): Build
    decreases |paths|
  {
    if paths == [] then b else PlaceCheckouts(PlaceCheckout(b, v, paths[0], project), v, paths[1..], project)
  }

  function PlaceProject(b: Build, v: View, p: Project): Build {
    PlaceCheckouts(Place(b, ProjectRow(p.root), Root), v, p.checkouts, |b.tree.nodes|)
  }

  function PlaceProjects(b: Build, v: View, projects: seq<Project>): Build
    decreases |projects|
  {
    if projects == [] then b else PlaceProjects(PlaceProject(b, v, projects[0]), v, projects[1..])
  }

  /** Sessions of workspaces without a node are nobody's siblings. */
  function AddDetached(t: Tree, live: seq<Session>, done: set<Workspace>): Tree
    decreases |live|
  {
    if live == [] then t
    else
      AddDetached(if live[0].workspace in done then t else Added(t, Row.SessionRow(live[0].id), Parent.Detached, false),
                  live[1..], done)
  }

  function BuildOf(v: View, rows: seq<Row>): Build {
    PlaceProjects(PlaceBlock(Build(Tree([], [], false), rows, {}), v, None, Root), v, v.projects)
  }

  function SnapshotOf(v: View, rows: seq<Row>, filtering: bool): Tree {
    var b := BuildOf(v, rows);
    AddDetached(b.tree, v.live, b.done).(filtering := filtering)
  }

  // ---- As the program builds it ----

  class SnapshotBuilder {
    var nodes: seq<Node>
    var projected: seq<nat>

    constructor ()
      ensures nodes == [] && projected == []
    {
      nodes, projected := [], [];
    }

    function Tree(): Tree
      reads this
    {
      SidebarFocus.Tree.Tree(nodes, projected, false)
    }

    method Push(row: Row, parent: Parent, drawn: bool) returns (id: nat)
      modifies this
      ensures id == |old(nodes)| && Tree() == Added(old(Tree()), row, parent, drawn)
    {
      id := |nodes|;
      nodes := nodes + [Node(row, parent)];
      if drawn {
        projected := projected + [id];
      }
    }

    /** Push a row in lockstep with the display. */
    method PushNext(rows: seq<Row>, next: nat, row: Row, parent: Parent, ghost done: set<Workspace>) returns (id: nat, met: nat)
      requires next <= |rows|
      modifies this
      ensures id == |old(nodes)| && met <= |rows|
      ensures Build(Tree(), rows[met..], done) == Place(Build(old(Tree()), rows[next..], done), row, parent)
    {
      met := next;
      var drawn := next < |rows| && rows[next] == row;
      if drawn {
        met := next + 1;
      }
      id := Push(row, parent, drawn);
    }

    method PushWorkspace(v: View, rows: seq<Row>, next: nat, placed: seq<bool>, ws: Workspace, parent: Parent,
                         ghost done: set<Workspace>)
      returns (met: nat, nowPlaced: seq<bool>)
      requires next <= |rows| && Marks(placed, v.live, done)
      modifies this
      ensures met <= |rows| && Marks(nowPlaced, v.live, done + {ws})
      ensures Build(Tree(), rows[met..], done + {ws})
           == PlaceWorkspace(Build(old(Tree()), rows[next..], done), v, ws, parent)
    {
      var entries := v.listed(ws);
      met, nowPlaced := next, placed;
      for i := 0 to |entries|
        invariant met <= |rows|
        invariant PlaceEntries(Build(Tree(), rows[met..], done), entries[i..], parent)
               == PlaceEntries(Build(old(Tree()), rows[next..], done), entries, parent)
      {
        assert entries[i..][1..] == entries[i + 1..];
        var _, after := PushNext(rows, met, RowOf(entries[i]), parent, done);
        met := after;
      }
      ghost var listed := Tree();
      for i := 0 to |v.live|
        invariant |nowPlaced| == |v.live|
        invariant forall k :: 0 <= k < |v.live| ==> (nowPlaced[k] <==> v.live[k].workspace in done || (k < i && v.live[k].workspace == ws))
        invariant AddUnlisted(Tree(), v.live[i..], ws, entries, parent) == AddUnlisted(listed, v.live, ws, entries, parent)
      {
        assert v.live[i..][1..] == v.live[i + 1..];
        if v.live[i].workspace != ws {
          continue;
        }
        nowPlaced := nowPlaced[i := true];
        if Entry.SessionRow(v.live[i].id) !in entries {
          var _ := Push(Row.SessionRow(v.live[i].id), parent, false);
        }
      }
    }
  }

  /** Exactly the sessions of the workspaces done are marked. */
  ghost predicate Marks(placed: seq<bool>, live: seq<Session>, done: set<Workspace>) {
    |placed| == |live| && forall k :: 0 <= k < |live| ==> (placed[k] <==> live[k].workspace in done)
  }

  method SkipProjectedRows(rows: seq<Row>, next: nat, entries: seq<Entry>, path: string) returns (met: nat)
    requires next <= |rows|
    ensures met <= |rows| && rows[met..] == SkipRows(rows[next..], path, entries)
  {
    if next == |rows| || rows[next] != WorktreeRow(path) {
      return next;
    }
    met := next + 1;
    for i := 0 to |entries|
      invariant met <= |rows|
      invariant SkipEntries(rows[met..], entries[i..]) == SkipRows(rows[next..], path, entries)
    {
      if met == |rows| || rows[met] != RowOf(entries[i]) {
        return;
      }
      assert entries[i..][1..] == entries[i + 1..];
      met := met + 1;
    }
  }

  /** Assemble the tree. */
  method BuildSnapshot(v: View, rows: seq<Row>, filtering: bool) returns (t: Tree)
    ensures t == SnapshotOf(v, rows, filtering)
  {
    var b := new SnapshotBuilder();
    var placed := seq(|v.live|, i => false);
    assert rows[0..] == rows;
    var home: nat, met: nat := b.PushNext(rows, 0, HomeRow, Root, {});
    met, placed := b.PushWorkspace(v, rows, met, placed, None, Under(home), {});
    ghost var done: set<Workspace> := {} + {None};
    assert v.projects[0..] == v.projects && v.live[0..] == v.live;
    assert Build(b.Tree(), rows[met..], done) == PlaceBlock(Build(Tree([], [], false), rows, {}), v, None, Root);
    for i := 0 to |v.projects|
      invariant fresh(b) && met <= |rows| && Marks(placed, v.live, done)
      invariant PlaceProjects(Build(b.Tree(), rows[met..], done), v, v.projects[i..]) == BuildOf(v, rows)
    {
      assert v.projects[i..][1..] == v.projects[i + 1..];
      met, placed, done := PushProject(b, v, rows, met, placed, v.projects[i], done);
    }
    for i := 0 to |v.live|
      invariant fresh(b)
      invariant AddDetached(b.Tree(), v.live[i..], done) == AddDetached(BuildOf(v, rows).tree, v.live, done)
    {
      assert v.live[i..][1..] == v.live[i + 1..];
      if !placed[i] {
        var _ := b.Push(Row.SessionRow(v.live[i].id), Parent.Detached, false);
      }
    }
    t := Tree.Tree(b.nodes, b.projected, filtering);
  }

  method PushProject(b: SnapshotBuilder, v: View, rows: seq<Row>, next: nat, placed: seq<bool>, p: Project,
                     ghost done: set<Workspace>)
    returns (met: nat, nowPlaced: seq<bool>, ghost nowDone: set<Workspace>)
    requires next <= |rows| && Marks(placed, v.live, done)
    modifies b
    ensures met <= |rows| && Marks(nowPlaced, v.live, nowDone)
    ensures Build(b.Tree(), rows[met..], nowDone) == PlaceProject(Build(old(b.Tree()), rows[next..], done), v, p)
  {
    var project, after := b.PushNext(rows, next, ProjectRow(p.root), Root, done);
    met, nowPlaced, nowDone := after, placed, done;
    for i := 0 to |p.checkouts|
      invariant met <= |rows| && Marks(nowPlaced, v.live, nowDone)
      invariant PlaceCheckouts(Build(b.Tree(), rows[met..], nowDone), v, p.checkouts[i..], project)
             == PlaceProject(Build(old(b.Tree()), rows[next..], done), v, p)
    {
      var path := p.checkouts[i];
      assert p.checkouts[i..][1..] == p.checkouts[i + 1..];
      if v.skip == Some(path) {
        met := SkipProjectedRows(rows, met, v.listed(Some(path)), path);
        continue;
      }
      var worktree, m := b.PushNext(rows, met, WorktreeRow(path), Under(project), nowDone);
      met, nowPlaced := b.PushWorkspace(v, rows, m, nowPlaced, Some(path), Under(worktree), nowDone);
      nowDone := nowDone + {Some(path)};
    }
  }
}
