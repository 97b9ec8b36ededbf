/** Which nodes the built tree has: one for each row listed, and every session. */
module SnapshotNodes {
  import opened DisplayOrder
  import opened Options
  import opened Seqs
  import opened Sessions
  import opened SidebarFocus
  import opened Snapshots

  // ---- Each session once ----

  function Below(parent: Parent): Row -> Node { (row: Row) => Node(row, parent) }

  function AsNodes(rows: seq<Row>, parent: Parent): seq<Node> {
    Map(rows, Below(parent))
  }

  function NotAmong(ws: Workspace, entries: seq<Entry>): Session -> bool {
    (s: Session) => s.workspace == ws && Entry.SessionRow(s.id) !in entries
  }

  function RowOfSession(): Session -> Row { (s: Session) => Row.SessionRow(s.id) }

  /** The workspace's sessions that the listing leaves out, in list order. */
  function LeftOut(live: seq<Session>, ws: Workspace, entries: seq<Entry>): seq<Session> {
    Filter(live, NotAmong(ws, entries))
  }

  function SessionRows(sessions: seq<Session>): seq<Row> {
    Map(sessions, RowOfSession())
  }

  lemma {:induction false} EntriesAddNodes(b: Build, entries: seq<Entry>, parent: Parent)
    ensures PlaceEntries(b, entries, parent).tree.nodes == b.tree.nodes + AsNodes(AsRows(entries), parent)
    ensures PlaceEntries(b, entries, parent).done == b.done
    decreases |entries|
  {
    if entries != [] {
      var first := Node(RowOf(entries[0]), parent);
      EntriesAddNodes(Place(b, RowOf(entries[0]), parent), entries[1..], parent);
      assert AsNodes(AsRows(entries), parent) == [first] + AsNodes(AsRows(entries[1..]), parent);
      Associate(b.tree.nodes, [first], AsNodes(AsRows(entries[1..]), parent));
    }
  }

  lemma {:induction false} UnlistedAddNodes(t: Tree, live: seq<Session>, ws: Workspace, entries: seq<Entry>, parent: Parent)
    ensures var after := AddUnlisted(t, live, ws, entries, parent);
            after.nodes == t.nodes + AsNodes(SessionRows(LeftOut(live, ws, entries)), parent) && after.projected == t.projected
    decreases |live|
  {
    if live != [] {
      var first := Node(Row.SessionRow(live[0].id), parent);
      var rest := AsNodes(SessionRows(LeftOut(live[1..], ws, entries)), parent);
      if Unlisted(live[0], ws, entries) {
        UnlistedAddNodes(Added(t, Row.SessionRow(live[0].id), parent, false), live[1..], ws, entries, parent);
        assert AsNodes(SessionRows(LeftOut(live, ws, entries)), parent) == [first] + rest;
        Associate(t.nodes, [first], rest);
      } else {
        UnlistedAddNodes(t, live[1..], ws, entries, parent);
        assert LeftOut(live, ws, entries) == LeftOut(live[1..], ws, entries);
      }
    }
  }

  /** A workspace adds a node for each row of its listing, in order, and then an
      undrawn one for each of its sessions that the listing leaves out, and no other. */
  lemma WorkspaceAddsEachOnce(b: Build, v: View, ws: Workspace, parent: Parent)
    ensures var after := PlaceWorkspace(b, v, ws, parent);
            && after.tree.nodes == b.tree.nodes + (AsNodes(AsRows(v.listed(ws)), parent)
                                                   + AsNodes(SessionRows(LeftOut(v.live, ws, v.listed(ws))), parent))
            && after.tree.projected == PlaceEntries(b, v.listed(ws), parent).tree.projected
            && after.rest == PlaceEntries(b, v.listed(ws), parent).rest
            && after.done == b.done + {ws}
  {
    var c := PlaceEntries(b, v.listed(ws), parent);
    EntriesAddNodes(b, v.listed(ws), parent);
    UnlistedAddNodes(c.tree, v.live, ws, v.listed(ws), parent);
    Associate(b.tree.nodes, AsNodes(AsRows(v.listed(ws)), parent), AsNodes(SessionRows(LeftOut(v.live, ws, v.listed(ws))), parent));
  }

  // ---- No session is missing ----

  ghost predicate Occurs(nodes: seq<Node>, row: Row) {
    exists i :: 0 <= i < |nodes| && nodes[i].row == row
  }

  /** Every session of a workspace done with has a node. */
  ghost predicate Accounts(b: Build, live: seq<Session>) {
    forall s :: s in live && s.workspace in b.done ==> Occurs(b.tree.nodes, Row.SessionRow(s.id))
  }

  lemma MoreNodes(nodes: seq<Node>, more: seq<Node>, row: Row)
    ensures Occurs(nodes + more, row) <==> Occurs(nodes, row) || Occurs(more, row)
  {
    var all := nodes + more;
    assert forall i :: 0 <= i < |nodes| ==> all[i] == nodes[i];
    assert forall i :: 0 <= i < |more| ==> all[|nodes| + i] == more[i];
  }

  lemma AsNodesHave(rows: seq<Row>, parent: Parent, row: Row)
    requires row in rows
    ensures Occurs(AsNodes(rows, parent), row)
  {
    var i := IndexIn(rows, row);
    assert AsNodes(rows, parent)[i].row == row;
  }

  lemma PlacingAccounts(b: Build, row: Row, parent: Parent, live: seq<Session>)
    requires Accounts(b, live)
    ensures Accounts(Place(b, row, parent), live)
  {
    forall s | s in live && s.workspace in b.done
      ensures Occurs(Place(b, row, parent).tree.nodes, Row.SessionRow(s.id))
    {
      MoreNodes(b.tree.nodes, [Node(row, parent)], Row.SessionRow(s.id));
    }
  }

  lemma WorkspaceAccounts(b: Build, v: View, ws: Workspace, parent: Parent)
    requires Accounts(b, v.live)
    ensures Accounts(PlaceWorkspace(b, v, ws, parent), v.live)
  {
    var rows, out := AsRows(v.listed(ws)), LeftOut(v.live, ws, v.listed(ws));
    var listed, rest := AsNodes(rows, parent), AsNodes(SessionRows(out), parent);
    WorkspaceAddsEachOnce(b, v, ws, parent);
    FilterElements(v.live, NotAmong(ws, v.listed(ws)));
    forall s | s in v.live && s.workspace in b.done + {ws}
      ensures Occurs(b.tree.nodes + (listed + rest), Row.SessionRow(s.id))
    {
      var row := Row.SessionRow(s.id);
      MoreNodes(b.tree.nodes, listed + rest, row);
      MoreNodes(listed, rest, row);
      if s.workspace == ws {
        if Entry.SessionRow(s.id) in v.listed(ws) {
          var i := IndexIn(v.listed(ws), Entry.SessionRow(s.id));
          assert rows[i] == row;
          AsNodesHave(rows, parent, row);
        } else {
          var i := IndexIn(out, s);
          assert SessionRows(out)[i] == row;
          AsNodesHave(SessionRows(out), parent, row);
        }
      }
    }
  }

  lemma BlockAccounts(b: Build, v: View, ws: Workspace, parent: Parent)
    requires Accounts(b, v.live)
    ensures Accounts(PlaceBlock(b, v, ws, parent), v.live)
  {
    PlacingAccounts(b, HeadRow(ws), parent, v.live);
    WorkspaceAccounts(Place(b, HeadRow(ws), parent), v, ws, Under(|b.tree.nodes|));
  }

  lemma {:induction false} CheckoutsAccount(b: Build, v: View, paths: seq<string>, project: nat)
    requires Accounts(b, v.live)
    ensures Accounts(PlaceCheckouts(b, v, paths, project), v.live)
    decreases |paths|
  {
    if paths != [] {
      if v.skip != Some(paths[0]) {
        BlockAccounts(b, v, Some(paths[0]), Under(project));
      }
      CheckoutsAccount(PlaceCheckout(b, v, paths[0], project), v, paths[1..], project);
    }
  }

  lemma {:induction false} ProjectsAccount(b: Build, v: View, projects: seq<Project>)
    requires Accounts(b, v.live)
    ensures Accounts(PlaceProjects(b, v, projects), v.live)
    decreases |projects|
  {
    if projects != [] {
      var p := projects[0];
      PlacingAccounts(b, ProjectRow(p.root), Root, v.live);
      CheckoutsAccount(Place(b, ProjectRow(p.root), Root), v, p.checkouts, |b.tree.nodes|);
      ProjectsAccount(PlaceProject(b, v, p), v, projects[1..]);
    }
  }

  lemma {:induction false} DetachedAccount(t: Tree, live: seq<Session>, done: set<Workspace>, s: Session)
    requires Occurs(t.nodes, Row.SessionRow(s.id)) || (s in live && s.workspace !in done)
    ensures Occurs(AddDetached(t, live, done).nodes, Row.SessionRow(s.id))
    decreases |live|
  {
    if live != [] {
      var next := if live[0].workspace in done then t else Added(t, Row.SessionRow(live[0].id), Parent.Detached, false);
      var added := Node(Row.SessionRow(live[0].id), Parent.Detached);
      MoreNodes(t.nodes, [added], Row.SessionRow(s.id));
      assert live == [live[0]] + live[1..] && [added][0] == added;
      DetachedAccount(next, live[1..], done, s);
    }
  }

  /** Whatever is displayed or listed, collapsed or being deleted, every running
      session has a node, so that none reads as closed. */
  lemma EverySessionIsModelled(v: View, rows: seq<Row>, filtering: bool, s: Session)
    requires s in v.live
    ensures Find(SnapshotOf(v, rows, filtering), Row.SessionRow(s.id)).Some?
  {
    var start := Build(Tree([], [], false), rows, {});
    BlockAccounts(start, v, None, Root);
    ProjectsAccount(PlaceBlock(start, v, None, Root), v, v.projects);
    var b := BuildOf(v, rows);
    DetachedAccount(b.tree, v.live, b.done, s);
  }
}
