/** Closing a tab moves two things: the workspace's active entry and, under
    follow, the cursor. Where the cursor goes, and when both go to one sibling. */
module CursorLandings {
  import opened AppState
  import opened CloseLandings
  import opened CloseSessions
  import opened DisplayOrder
  import opened Neighbours
  import opened Options
  import opened PaneListings
  import opened Seqs
  import opened Sessions
  import opened Shadows
  import opened SidebarFocus
  import opened SnapshotRows
  import opened Snapshots

  /** What an unfiltered sidebar shows: the projects, the sessions, the panes as
      listed, whether a lone shell is listed, and a worktree being deleted. */
  datatype Sidebar = Sidebar(projects: seq<Project>, sessions: seq<Session>, listing: Listing, always: bool, skip: Option<string>) {
    ghost predicate Valid() {
      DistinctIds(sessions) && WellListed(listing)
    }

    function Rows(ws: Workspace): seq<Entry> {
      RowsFor(sessions, listing, ws, always)
    }

    function ViewOf(): View {
      View(projects, sessions, ws => RowsFor(sessions, listing, ws, always), skip)
    }

    function Snapshot(): Tree {
      SnapshotOf(ViewOf(), VisibleRows(projects, ViewOf().listed), false)
    }

    /** The sidebar once the session at idx is closed. */
    function Without(idx: nat): Sidebar
      requires idx < |sessions|
    {
      this.(sessions := RemoveAt(sessions, idx))
    }

    /** The session's tab has a row of its own on display, under the first project
        that lists its workspace or under a later one. */
    predicate ShowsTab(idx: nat)
      requires idx < |sessions|
    {
      var ws := sessions[idx].workspace;
      Entry.SessionRow(sessions[idx].id) in Rows(ws) && (OnDisplay(ViewOf(), ws) || Shadowed(ViewOf(), ws))
    }
  }

  // ---- Whose row it is ----

  function HomeOf(sessions: seq<Session>, listing: Listing): Homes {
    (row: Row) =>
      match row
      case HomeRow => Some(None)
      case ProjectRow(_) => None
      case WorktreeRow(path) => Some(Some(path))
      case SessionRow(id) =>
        var at := Position(sessions, id);
        if at.None? then None else Some(sessions[at.value].workspace)
      case PaneRow(pane) =>
        var at := PlaceIn(listing, pane);
        if at.None? then None else listing[at.value].under
  }

  lemma RowsAreHome(sessions: seq<Session>, listing: Listing, ws: Workspace, always: bool, e: Entry)
    requires DistinctIds(sessions) && WellListed(listing) && e in RowsFor(sessions, listing, ws, always)
    ensures HomeOf(sessions, listing)(RowOf(e)) == Some(ws)
  {
    RowsInParts(sessions, listing, ws, always);
    ShellRowsAre(sessions, ws);
    ManagedEntriesAre(sessions, listing, ws);
    match e
    case SessionRow(id) =>
      SessionIsHome(sessions, listing, ws, id, e in ManagedEntries(sessions, listing, ws));
    case PaneRow(pane) =>
      PaneIsHome(sessions, listing, ws, pane);
  }

  lemma SessionIsHome(sessions: seq<Session>, listing: Listing, ws: Workspace, id: nat, attached: bool)
    requires DistinctIds(sessions) && HasRow(sessions, ws, id, attached)
    ensures HomeOf(sessions, listing)(Row.SessionRow(id)) == Some(ws)
  {
    var s :| s in sessions && s.workspace == ws && s.id == id && s.pane.Some? == attached;
    var i := IndexIn(sessions, s);
    assert Position(sessions, id) == Some(i);
  }

  lemma PaneIsHome(sessions: seq<Session>, listing: Listing, ws: Workspace, pane: string)
    requires WellListed(listing) && Listed(pane, Some(ws)) in listing
    ensures HomeOf(sessions, listing)(Row.PaneRow(pane)) == Some(ws)
  {
    var i := IndexIn(listing, Listed(pane, Some(ws)));
    assert PlaceIn(listing, pane) == Some(i);
  }

  lemma SidebarIsHomed(s: Sidebar)
    requires s.Valid()
    ensures Homed(s.ViewOf(), HomeOf(s.sessions, s.listing))
  {
    var home := HomeOf(s.sessions, s.listing);
    forall ws, e | e in s.ViewOf().listed(ws)
      ensures home(RowOf(e)) == Some(ws)
    {
      RowsAreHome(s.sessions, s.listing, ws, s.always, e);
    }
    forall x | x in s.sessions
      ensures home(Row.SessionRow(x.id)) == Some(x.workspace)
    {
      var i := IndexIn(s.sessions, x);
      assert Position(s.sessions, x.id) == Some(i);
    }
  }

  lemma HousedIsOpen(t: Tree, sessions: seq<Session>, listing: Listing)
    requires Housed(t, HomeOf(sessions, listing))
    ensures forall k :: 0 <= k < |t.nodes| ==> ShowsSession(t, k, sessions)
    ensures forall id :: Position(sessions, id).None? ==> Find(t, Row.SessionRow(id)).None?
  {
    var home := HomeOf(sessions, listing);
    forall k | 0 <= k < |t.nodes|
      ensures ShowsSession(t, k, sessions)
    {
      HousedShowsSession(t, k, sessions, listing);
    }
    forall id | Position(sessions, id).None?
      ensures Find(t, Row.SessionRow(id)).None?
    {
      var k := Find(t, Row.SessionRow(id));
      if k.Some? {
        assert NodeIsHoused(t, k.value, home);
      }
    }
  }

  lemma HousedShowsSession(t: Tree, k: nat, sessions: seq<Session>, listing: Listing)
    requires k < |t.nodes| && NodeIsHoused(t, k, HomeOf(sessions, listing))
    ensures ShowsSession(t, k, sessions)
  {
  }

  /** The sidebar shows a workspace that is on display with its rows, and nothing
      that is not open. */
  lemma SidebarSeats(s: Sidebar, ws: Workspace) returns (k: nat)
    requires s.Valid() && OnDisplay(s.ViewOf(), ws)
    ensures Seated(s.Snapshot(), k, ws, s.Rows(ws))
    ensures HasSession(s.Snapshot(), k) <==> Live(s.sessions, ws)
    ensures forall x :: x in s.sessions && x.workspace == ws ==> FoundUnder(s.Snapshot(), k, Row.SessionRow(x.id))
    ensures forall id :: Position(s.sessions, id).None? ==> Find(s.Snapshot(), Row.SessionRow(id)).None?
  {
    SidebarIsHomed(s);
    k := SnapshotSeats(s.ViewOf(), ws, HomeOf(s.sessions, s.listing), false);
    HousedIsOpen(s.Snapshot(), s.sessions, s.listing);
  }

  /** One that is listed by a collapsed project first is met there, undrawn. */
  lemma SidebarHides(s: Sidebar, path: string) returns (k: nat, at: nat)
    requires s.Valid() && Shadowed(s.ViewOf(), Some(path))
    ensures var root := ListedBy(s.projects, path).value.root;
            Hidden(s.Snapshot(), k, at, s.ViewOf(), path, root) && s.Snapshot().Draws(ProjectRow(root))
    ensures forall id :: Position(s.sessions, id).None? ==> Find(s.Snapshot(), Row.SessionRow(id)).None?
  {
    SidebarIsHomed(s);
    k, at := SnapshotHides(s.ViewOf(), path, HomeOf(s.sessions, s.listing), false);
    HousedIsOpen(s.Snapshot(), s.sessions, s.listing);
  }

  /** In every snapshot, filtered or not, each session row is an open session
      under its own workspace, so that what a repair offers is open. */
  lemma SnapshotsOfferWhatIsOpen(s: Sidebar, rows: seq<Row>, filtering: bool, prev: Tree,
                                 cursor: Option<Row>, anchor: Option<Row>, app: State)
    requires s.Valid() && prev.Valid() && app.sessions == s.sessions
    ensures var next := SnapshotOf(s.ViewOf(), rows, filtering);
            next.Valid() && Offers(app, Repair(prev, next, cursor, anchor).follow)
  {
    var next := SnapshotOf(s.ViewOf(), rows, filtering);
    SidebarIsHomed(s);
    SnapshotIsHoused(s.ViewOf(), rows, filtering, HomeOf(s.sessions, s.listing));
    HousedIsOpen(next, s.sessions, s.listing);
    OfferIsOpen(prev, next, cursor, anchor, app);
  }

  // ---- Where a close leaves the cursor ----

  /** What takes the cursor of a closed tab: the tab's own pane, listed again;
      nothing, when a lone shell left is not listed; else the row displayed next
      to it. */
  function LandingEntry(s: Sidebar, idx: nat): Option<Entry>
    requires idx < |s.sessions| && s.ShowsTab(idx)
  {
    var x := s.sessions[idx];
    if PaneReturns(s.sessions, s.listing, idx) then Some(Entry.PaneRow(x.pane.value))
    else if LeavesLoneShell(s.sessions, s.listing, idx, s.always) then None
    else NeighbourOf(s.Rows(x.workspace), Entry.SessionRow(x.id))
  }

  /** A landing's row; without one the workspace's own. */
  function LandsOn(ws: Workspace, landing: Option<Entry>): Row {
    match landing
    case Some(e) => RowOf(e)
    case None => HeadRow(ws)
  }

  /** The entry at a place, or the last one. */
  function EntryAt(rows: seq<Entry>, k: nat): Option<Entry> {
    if rows == [] then None else Some(rows[if k < |rows| then k else |rows| - 1])
  }

  lemma OrdinalIsThePlace(t: Tree, k: nat, ws: Workspace, rows: seq<Entry>, e: Entry)
    requires Seated(t, k, ws, rows) && Distinct(rows) && e in rows
    ensures var i := Find(t, RowOf(e));
            i.Some? && t.nodes[i.value].parent == Under(k) && OrdinalOf(Children(t, Under(k)), i.value) == Some(IndexOf(rows, e))
  {
    assert PlacedUnder(t, k, RowOf(e));
    var node, children := Find(t, RowOf(e)).value, Children(t, Under(k));
    AmongHolds(t, t.projected, Under(k), node);
    var i := OrdinalOf(children, node).value;
    assert RowsUnder(t, k)[i] == AsRows(rows)[i] == RowOf(rows[i]);
    assert rows[i] == e;
    SamePlace(rows, i, IndexOf(rows, e));
  }

  lemma SurvivorIsTheEntry(t: Tree, k: nat, ws: Workspace, rows: seq<Entry>, at: nat)
    requires Seated(t, k, ws, rows)
    ensures SurvivorAt(t, Under(k), at) == match EntryAt(rows, at) case Some(l) => Some(RowOf(l)) case None => None
  {
    var survivors := Children(t, Under(k));
    assert |survivors| == |RowsUnder(t, k)| == |rows|;
    if rows != [] {
      var i := if at < |rows| then at else |rows| - 1;
      assert RowsUnder(t, k)[i] == AsRows(rows)[i] == RowOf(rows[i]);
    }
  }

  lemma SlideIs(prev: Tree, next: Tree, removed: nat, k: nat, there: nat, at: nat)
    requires prev.Valid() && next.Valid() && removed < |prev.nodes| && k < |prev.nodes|
    requires prev.nodes[removed].parent == Under(k) && OrdinalOf(Children(prev, Under(k)), removed) == Some(at)
    requires Find(next, prev.nodes[k].row) == Some(there)
    ensures var survivor := SurvivorAt(next, Under(there), at);
            Slide(prev, next, removed) == if survivor.Some? then survivor else Some(prev.nodes[k].row)
  {
  }

  /** A slide from one listing of a workspace to another. */
  lemma SlidesBetween(prev: Tree, next: Tree, k: nat, there: nat, ws: Workspace, rows: seq<Entry>, after: seq<Entry>, e: Entry)
    requires Seated(prev, k, ws, rows) && Seated(next, there, ws, after) && Distinct(rows) && e in rows
    ensures var i := Find(prev, RowOf(e));
            i.Some? && Slide(prev, next, i.value) == Some(LandsOn(ws, EntryAt(after, IndexOf(rows, e))))
  {
    OrdinalIsThePlace(prev, k, ws, rows, e);
    SurvivorIsTheEntry(next, there, ws, after, IndexOf(rows, e));
    SlideIs(prev, next, Find(prev, RowOf(e)).value, k, there, IndexOf(rows, e));
  }

  lemma LandingIsDrawn(t: Tree, k: nat, ws: Workspace, rows: seq<Entry>, at: nat)
    requires Seated(t, k, ws, rows)
    ensures t.Draws(LandsOn(ws, EntryAt(rows, at)))
  {
    var l := EntryAt(rows, at);
    if l.Some? {
      assert l.value in rows;
      assert PlacedUnder(t, k, RowOf(l.value));
    }
  }

  lemma RepairTakesTheSlide(prev: Tree, next: Tree, row: Row, landing: Row, anchor: Option<Row>)
    requires prev.Valid() && next.Valid() && !next.filtering
    requires Find(prev, row).Some? && Find(next, row).None?
    requires Slide(prev, next, Find(prev, row).value) == Some(landing) && next.Draws(landing)
    ensures Repair(prev, next, Some(row), anchor) == Repaired(Some(landing), None, Offer(next, landing))
  {
  }

  /** And what the repair makes of it. */
  lemma RepairsBetween(prev: Tree, next: Tree, k: nat, there: nat, ws: Workspace, rows: seq<Entry>, after: seq<Entry>,
                       e: Entry, anchor: Option<Row>)
    requires Seated(prev, k, ws, rows) && Seated(next, there, ws, after) && Distinct(rows) && e in rows
    requires Find(next, RowOf(e)).None? && !next.filtering
    ensures var landing := LandsOn(ws, EntryAt(after, IndexOf(rows, e)));
            Repair(prev, next, Some(RowOf(e)), anchor) == Repaired(Some(landing), None, Offer(next, landing))
  {
    SlidesBetween(prev, next, k, there, ws, rows, after, e);
    LandingIsDrawn(next, there, ws, after, IndexOf(rows, e));
    RepairTakesTheSlide(prev, next, RowOf(e), LandsOn(ws, EntryAt(after, IndexOf(rows, e))), anchor);
  }

  /** A cursor whose row is still drawn stays. */
  lemma RepairKeepsTheCursor(prev: Tree, next: Tree, k: nat, ws: Workspace, rows: seq<Entry>, e: Entry, anchor: Option<Row>)
    requires prev.Valid() && Seated(next, k, ws, rows) && e in rows && !next.filtering
    ensures Repair(prev, next, Some(RowOf(e)), anchor) == Repaired(Some(RowOf(e)), None, None)
  {
    assert PlacedUnder(next, k, RowOf(e));
  }

  /** One on an open session that is not listed climbs to its workspace's row,
      anchored to the session. */
  lemma RepairClimbsToTheHead(prev: Tree, next: Tree, k: nat, ws: Workspace, rows: seq<Entry>, id: nat, anchor: Option<Row>)
    requires prev.Valid() && Seated(next, k, ws, rows) && !next.filtering
    requires FoundUnder(next, k, Row.SessionRow(id)) && Entry.SessionRow(id) !in rows
    ensures Repair(prev, next, Some(Row.SessionRow(id)), anchor) == Repaired(Some(HeadRow(ws)), Some(Row.SessionRow(id)), None)
  {
    var i := Find(next, Row.SessionRow(id)).value;
    if i in next.projected {
      DrawnIsListed(next, k, ws, rows, i, Entry.SessionRow(id));
    }
  }

  lemma DrawnIsListed(t: Tree, k: nat, ws: Workspace, rows: seq<Entry>, i: nat, e: Entry)
    requires Seated(t, k, ws, rows) && i in t.projected && t.nodes[i].parent == Under(k) && t.nodes[i].row == RowOf(e)
    ensures e in rows
  {
    AmongHolds(t, t.projected, Under(k), i);
    var j := IndexIn(Children(t, Under(k)), i);
    assert RowsUnder(t, k)[j] == AsRows(rows)[j] == RowOf(rows[j]);
    assert rows[j] == e;
  }

  lemma EntryAtRemoval(rows: seq<Entry>, k: nat)
    requires k < |rows|
    ensures EntryAt(RemoveAt(rows, k), k) == Neighbour(rows, k)
  {
  }

  /** The landing is what stands where the closed tab's row did. */
  lemma EntryAfterAClose(s: Sidebar, idx: nat)
    requires s.Valid() && idx < |s.sessions| && s.ShowsTab(idx)
    ensures var x := s.sessions[idx];
            var rows, after := s.Rows(x.workspace), s.Without(idx).Rows(x.workspace);
            Distinct(rows) && LandingEntry(s, idx) == EntryAt(after, IndexOf(rows, Entry.SessionRow(x.id)))
  {
    var rows := s.Rows(s.sessions[idx].workspace);
    RowsAfterAClose(s.sessions, s.listing, idx, s.always);
    EntryAtRemoval(rows, IndexOf(rows, Entry.SessionRow(s.sessions[idx].id)));
  }

  lemma EachHasARow(sessions: seq<Session>, listing: Listing, ws: Workspace)
    requires Live(sessions, ws)
    ensures ShellRows(sessions, ws) + ManagedEntries(sessions, listing, ws) != []
  {
    ShellRowsAre(sessions, ws);
    ManagedEntriesAre(sessions, listing, ws);
    var i :| 0 <= i < |sessions| && sessions[i].workspace == ws;
    assert HasRow(sessions, ws, sessions[i].id, sessions[i].pane.Some?);
    assert IsManaged(sessions, listing, ws, Entry.SessionRow(sessions[i].id)) || Entry.SessionRow(sessions[i].id) in ShellRows(sessions, ws);
  }

  /** The rows are empty only without sessions, or below the threshold. */
  lemma EmptyRowsAfterAClose(s: Sidebar, idx: nat)
    requires s.Valid() && idx < |s.sessions| && s.Without(idx).Rows(s.sessions[idx].workspace) == []
    ensures Live(s.Without(idx).sessions, s.sessions[idx].workspace) <==> LeavesLoneShell(s.sessions, s.listing, idx, s.always)
  {
    var left, ws := RemoveAt(s.sessions, idx), s.sessions[idx].workspace;
    RowsInParts(left, s.listing, ws, s.always);
    LoneShellExactlyWhen(s.sessions, s.listing, idx, s.always);
    ShellRowsAre(left, ws);
    ManagedEntriesAre(left, s.listing, ws);
    if Live(left, ws) {
      EachHasARow(left, s.listing, ws);
    }
    if LeavesLoneShell(s.sessions, s.listing, idx, s.always) {
      var e := ShellRows(left, ws)[0];
      assert e in ShellRows(left, ws);
      var x :| x in left && x.workspace == ws && x.id == e.id;
      var i := IndexIn(left, x);
    }
  }

  lemma ClosedIsGone(sessions: seq<Session>, idx: nat)
    requires DistinctIds(sessions) && idx < |sessions|
    ensures Position(RemoveAt(sessions, idx), sessions[idx].id).None?
  {
    var left := RemoveAt(sessions, idx);
    forall k | 0 <= k < |left|
      ensures left[k].id != sessions[idx].id
    {
      assert left[k] == sessions[if k < idx then k else k + 1];
    }
  }

  lemma OfferAtHead(t: Tree, k: nat, ws: Workspace)
    requires k < |t.nodes| && Find(t, HeadRow(ws)) == Some(k)
    ensures Offer(t, HeadRow(ws)) == if HasSession(t, k) then Some(ToWorkspace(ws)) else None
  {
  }

  // ---- When the active entry goes there too ----

  /** Closing the tab sends the cursor to the sibling that takes over, or to the
      workspace's row when that sibling is all there is. */
  ghost predicate SiblingAgrees(s: Sidebar, idx: nat)
    requires idx < |s.sessions|
  {
    var sibling := SiblingAfter(RemoveAt(s.sessions, idx), s.sessions[idx].workspace, idx, true);
    sibling.Some? ==>
      s.ShowsTab(idx) && (LandingEntry(s, idx).None? || LandingEntry(s, idx) == Some(Entry.SessionRow(sibling.value)))
  }

  /** No pane is listed below a session. */
  ghost predicate PanesFirst(rows: seq<Entry>) {
    forall i, j :: 0 <= i < j < |rows| && rows[i].SessionRow? ==> rows[j].SessionRow?
  }

  ghost predicate NoPaneReturns(s: Sidebar, ws: Workspace) {
    forall idx :: 0 <= idx < |s.sessions| && s.sessions[idx].workspace == ws ==> !PaneReturns(s.sessions, s.listing, idx)
  }

  lemma {:induction false} AllSessions(rows: seq<Entry>)
    requires forall i :: 0 <= i < |rows| ==> rows[i].SessionRow?
    ensures |SessionIds(rows)| == |rows|
    ensures forall j :: 0 <= j < |rows| ==> rows[j] == Entry.SessionRow(SessionIds(rows)[j])
  {
    if rows != [] {
      AllSessions(rows[1..]);
      assert SessionIds(rows) == [rows[0].id] + SessionIds(rows[1..]);
    }
  }

  /** The first m rows are panes, and the rest these sessions. */
  ghost predicate InBlocks(rows: seq<Entry>, m: nat, ids: seq<nat>) {
    && |rows| == m + |ids|
    && (forall i :: 0 <= i < m ==> rows[i].PaneRow?)
    && forall j :: 0 <= j < |ids| ==> rows[m + j] == Entry.SessionRow(ids[j])
  }

  lemma OnePaneMore(rows: seq<Entry>, m: nat, ids: seq<nat>)
    requires rows != [] && rows[0].PaneRow? && InBlocks(rows[1..], m, ids)
    ensures InBlocks(rows, m + 1, ids)
  {
    var rest := rows[1..];
    forall i | 0 <= i < m + 1
      ensures rows[i].PaneRow?
    {
      assert i > 0 ==> rows[i] == rest[i - 1];
    }
    forall j | 0 <= j < |ids|
      ensures rows[m + 1 + j] == Entry.SessionRow(ids[j])
    {
      assert rows[m + 1 + j] == rest[m + j];
    }
  }

  lemma RestHasPanesFirst(rows: seq<Entry>)
    requires rows != [] && PanesFirst(rows)
    ensures PanesFirst(rows[1..])
  {
    var rest := rows[1..];
    forall i, j | 0 <= i < j < |rest| && rest[i].SessionRow?
      ensures rest[j].SessionRow?
    {
      assert rows[i + 1].SessionRow? && rows[j + 1] == rest[j];
    }
  }

  lemma {:induction false} SessionsLast(rows: seq<Entry>)
    requires PanesFirst(rows)
    ensures |SessionIds(rows)| <= |rows| && InBlocks(rows, |rows| - |SessionIds(rows)|, SessionIds(rows))
  {
    if rows != [] && rows[0].PaneRow? {
      RestHasPanesFirst(rows);
      SessionsLast(rows[1..]);
      assert SessionIds(rows) == SessionIds(rows[1..]);
      OnePaneMore(rows, |rows[1..]| - |SessionIds(rows)|, SessionIds(rows));
    } else {
      AllSessions(rows);
    }
  }

  lemma {:induction false} SessionIdsAre(rows: seq<Entry>)
    ensures forall id :: id in SessionIds(rows) <==> Entry.SessionRow(id) in rows
  {
    if rows != [] {
      SessionIdsAre(rows[1..]);
      assert rows == [rows[0]] + rows[1..];
    }
  }

  /** With the panes first, a session's neighbour in the rows is its neighbour
      among the sessions. */
  lemma NeighbourInRows(rows: seq<Entry>, id: nat)
    requires Distinct(rows) && PanesFirst(rows) && Distinct(SessionIds(rows)) && |SessionIds(rows)| > 1 && id in SessionIds(rows)
    ensures Entry.SessionRow(id) in rows && NeighbourOf(SessionIds(rows), id).Some?
         && NeighbourOf(rows, Entry.SessionRow(id)) == Some(Entry.SessionRow(NeighbourOf(SessionIds(rows), id).value))
  {
    SessionsLast(rows);
    NeighbourInBlocks(rows, |rows| - |SessionIds(rows)|, SessionIds(rows), IndexOf(SessionIds(rows), id));
  }

  lemma NeighbourInBlocks(rows: seq<Entry>, m: nat, ids: seq<nat>, j: nat)
    requires Distinct(rows) && InBlocks(rows, m, ids) && |ids| > 1 && j < |ids|
    ensures Entry.SessionRow(ids[j]) in rows && Neighbour(ids, j).Some?
         && NeighbourOf(rows, Entry.SessionRow(ids[j])) == Some(Entry.SessionRow(Neighbour(ids, j).value))
  {
    assert rows[m + j] == Entry.SessionRow(ids[j]);
    NeighbourAt(rows, m + j);
    var next := if j + 1 < |ids| then j + 1 else j - 1;
    assert rows[m + next] == Entry.SessionRow(ids[next]);
  }

  lemma PaneBelow(rows: seq<Entry>) returns (k: nat)
    requires !PanesFirst(rows)
    ensures k + 1 < |rows| && rows[k].SessionRow? && rows[k + 1].PaneRow?
  {
    var i, j :| 0 <= i < j < |rows| && rows[i].SessionRow? && !rows[j].SessionRow?;
    k := i;
    while rows[k + 1].SessionRow?
      invariant i <= k < j && rows[k].SessionRow?
      decreases j - k
    {
      k := k + 1;
    }
  }

  /** The rows of a workspace with two sessions or more show them in display order. */
  lemma RowsShowDisplayed(s: Sidebar, ws: Workspace)
    requires s.Valid() && |ListedIds(s.sessions, ws)| > 1
    ensures SessionIds(s.Rows(ws)) == DisplayedIds(s.sessions, RanksOf(s.listing), ws)
  {
    var own := SessionsOf(s.sessions, ws);
    ShellsAndAttached(own);
    RowsFollowTheRings(s.sessions, RanksOf(s.listing), Unclaimed(s.listing, s.sessions, ws), ws, s.always);
  }

  lemma LoneLeavesTwo(s: Sidebar, idx: nat)
    requires s.Valid() && idx < |s.sessions| && LeavesLoneShell(s.sessions, s.listing, idx, s.always)
    ensures |ListedIds(s.sessions, s.sessions[idx].workspace)| == 2
    ensures !PaneReturns(s.sessions, s.listing, idx)
    ensures forall e :: e in s.Rows(s.sessions[idx].workspace) ==> e.SessionRow?
  {
    var x, left := s.sessions[idx], RemoveAt(s.sessions, idx);
    FilterAt(s.sessions, idx, InWorkspace(x.workspace));
    FilterConcat(s.sessions[..idx], s.sessions[idx + 1..], InWorkspace(x.workspace));
    UnclaimedStay(s.sessions, s.listing, idx);
    NoPaneListed(s.sessions, s.listing, x.workspace, s.always);
    UnclaimedAre(left, s.listing, x.workspace);
    NothingIn(Unclaimed(s.listing, left, x.workspace), Unclaimed(s.listing, s.sessions, x.workspace));
  }

  lemma NothingIn<T>(a: seq<T>, b: seq<T>)
    requires a == [] && forall x :: x in b ==> x in a
    ensures b == []
  {
    FilterAll(b, x => x in a);
    FilterNone(b, x => x in a);
  }

  lemma UnclaimedStay(sessions: seq<Session>, listing: Listing, idx: nat)
    requires idx < |sessions|
    ensures var ws := sessions[idx].workspace;
            forall pane :: pane in Unclaimed(listing, sessions, ws) ==> pane in Unclaimed(listing, RemoveAt(sessions, idx), ws)
  {
    var ws, left := sessions[idx].workspace, RemoveAt(sessions, idx);
    UnclaimedAre(sessions, listing, ws);
    UnclaimedAre(left, listing, ws);
    forall pane | pane in Unclaimed(listing, sessions, ws)
      ensures pane in Unclaimed(listing, left, ws)
    {
      ClaimsAfter(sessions, idx, pane);
    }
  }

  lemma NoPaneListed(sessions: seq<Session>, listing: Listing, ws: Workspace, always: bool)
    ensures (forall e :: e in RowsFor(sessions, listing, ws, always) ==> e.SessionRow?) <==> Unclaimed(listing, sessions, ws) == []
  {
    var rows, panes := RowsFor(sessions, listing, ws, always), Unclaimed(listing, sessions, ws);
    RowsInParts(sessions, listing, ws, always);
    ShellRowsAre(sessions, ws);
    ManagedEntriesAre(sessions, listing, ws);
    UnclaimedAre(sessions, listing, ws);
    forall pane
      ensures Entry.PaneRow(pane) in rows <==> pane in panes
    {
      assert pane in panes <==> IsManaged(sessions, listing, ws, Entry.PaneRow(pane));
    }
    if panes != [] {
      assert panes[0] in panes;
    }
  }

  /** What is sought of one tab, given how its workspace is listed. */
  lemma AgreesOnOne(s: Sidebar, idx: nat)
    requires s.Valid() && idx < |s.sessions| && OnDisplay(s.ViewOf(), s.sessions[idx].workspace)
    requires |ListedIds(s.sessions, s.sessions[idx].workspace)| > 1
    ensures var x := s.sessions[idx];
            var listed, rows := ListedIds(s.sessions, x.workspace), s.Rows(x.workspace);
            && x.id in listed && NeighbourOf(listed, x.id).Some? && s.ShowsTab(idx)
            && (SiblingAgrees(s, idx) <==>
                  || LandingEntry(s, idx).None?
                  || LandingEntry(s, idx) == Some(Entry.SessionRow(NeighbourOf(listed, x.id).value)))
  {
    var x := s.sessions[idx];
    CloseTakesTheListNeighbour(s.sessions, idx);
    OrdersOfTheSame(s.sessions, RanksOf(s.listing), x.workspace);
    RowsShowDisplayed(s, x.workspace);
    SessionIdsAre(s.Rows(x.workspace));
    assert x.id in Elements(ListedIds(s.sessions, x.workspace));
  }

  /** With two sessions or more: no tab's own pane takes its place, and no pane
      stands next below a tab. */
  lemma AgreementNeeds(s: Sidebar, ws: Workspace)
    requires s.Valid() && OnDisplay(s.ViewOf(), ws) && |ListedIds(s.sessions, ws)| > 1
    requires forall idx :: 0 <= idx < |s.sessions| && s.sessions[idx].workspace == ws ==> SiblingAgrees(s, idx)
    ensures NoPaneReturns(s, ws) && PanesFirst(s.Rows(ws))
  {
    forall idx | 0 <= idx < |s.sessions| && s.sessions[idx].workspace == ws
      ensures !PaneReturns(s.sessions, s.listing, idx)
    {
      assert SiblingAgrees(s, idx);
      AgreesOnOne(s, idx);
    }
    var rows := s.Rows(ws);
    if !PanesFirst(rows) {
      var k := PaneBelow(rows);
      var idx := SessionOfARow(s, ws, k);
      assert SiblingAgrees(s, idx);
      AgreesOnOne(s, idx);
      RowsDifferFromEachOther(s.sessions, s.listing, ws, s.always);
      NeighbourAt(rows, k);
      assert rows[k + 1] in rows;
      if LeavesLoneShell(s.sessions, s.listing, idx, s.always) {
        LoneLeavesTwo(s, idx);
      }
      assert false;
    }
  }

  lemma SessionOfARow(s: Sidebar, ws: Workspace, k: nat) returns (idx: nat)
    requires k < |s.Rows(ws)| && s.Rows(ws)[k].SessionRow?
    ensures idx < |s.sessions| && s.sessions[idx].workspace == ws && s.sessions[idx].id == s.Rows(ws)[k].id
  {
    RowsInParts(s.sessions, s.listing, ws, s.always);
    ShellRowsAre(s.sessions, ws);
    ManagedEntriesAre(s.sessions, s.listing, ws);
    var e := s.Rows(ws)[k];
    assert e in s.Rows(ws);
    var x :| x in s.sessions && x.workspace == ws && x.id == e.id;
    idx := IndexIn(s.sessions, x);
  }

  /** Then the cursor goes to the neighbour on display. */
  lemma LandsOnDisplayed(s: Sidebar, idx: nat)
    requires s.Valid() && idx < |s.sessions| && OnDisplay(s.ViewOf(), s.sessions[idx].workspace)
    requires |ListedIds(s.sessions, s.sessions[idx].workspace)| > 1 && NoPaneReturns(s, s.sessions[idx].workspace)
    requires PanesFirst(s.Rows(s.sessions[idx].workspace))
    ensures var x := s.sessions[idx];
            var displayed := DisplayedIds(s.sessions, RanksOf(s.listing), x.workspace);
            && s.ShowsTab(idx) && x.id in displayed && NeighbourOf(displayed, x.id).Some?
            && LandingEntry(s, idx)
               == if LeavesLoneShell(s.sessions, s.listing, idx, s.always) then None
                  else Some(Entry.SessionRow(NeighbourOf(displayed, x.id).value))
  {
    var x := s.sessions[idx];
    AgreesOnOne(s, idx);
    OrdersOfTheSame(s.sessions, RanksOf(s.listing), x.workspace);
    DistinctCount(ListedIds(s.sessions, x.workspace));
    DistinctCount(DisplayedIds(s.sessions, RanksOf(s.listing), x.workspace));
    assert x.id in Elements(ListedIds(s.sessions, x.workspace));
    RowsShowDisplayed(s, x.workspace);
    RowsDifferFromEachOther(s.sessions, s.listing, x.workspace, s.always);
    NeighbourInRows(s.Rows(x.workspace), x.id);
  }

  /** The cursor goes to that sibling, whichever of a workspace's tabs closes,
      exactly when the workspace has one session at most, or: no tab's own pane
      would be listed in its place, no pane is listed below a session, and its
      list is in display order or has two sessions. */
  lemma SiblingsAgreeExactlyWhen(s: Sidebar, ws: Workspace)
    requires s.Valid() && OnDisplay(s.ViewOf(), ws)
    ensures var listed, displayed := ListedIds(s.sessions, ws), DisplayedIds(s.sessions, RanksOf(s.listing), ws);
            (forall idx :: 0 <= idx < |s.sessions| && s.sessions[idx].workspace == ws ==> SiblingAgrees(s, idx))
            <==> |listed| <= 1 || (NoPaneReturns(s, ws) && PanesFirst(s.Rows(ws)) && (|listed| <= 2 || displayed == listed))
  {
    var listed, displayed := ListedIds(s.sessions, ws), DisplayedIds(s.sessions, RanksOf(s.listing), ws);
    OrdersOfTheSame(s.sessions, RanksOf(s.listing), ws);
    SameNeighboursExactlyWhen(listed, displayed);
    if |listed| <= 1 {
      AloneAgrees(s, ws);
    } else {
      if forall idx :: 0 <= idx < |s.sessions| && s.sessions[idx].workspace == ws ==> SiblingAgrees(s, idx) {
        AgreementNeeds(s, ws);
      }
      if NoPaneReturns(s, ws) && PanesFirst(s.Rows(ws)) {
        AgreeAsNeighbours(s, ws);
      }
    }
  }

  lemma AloneAgrees(s: Sidebar, ws: Workspace)
    requires s.Valid() && |ListedIds(s.sessions, ws)| <= 1
    ensures forall idx :: 0 <= idx < |s.sessions| && s.sessions[idx].workspace == ws ==> SiblingAgrees(s, idx)
  {
    forall idx | 0 <= idx < |s.sessions| && s.sessions[idx].workspace == ws
      ensures SiblingAgrees(s, idx)
    {
      CloseTakesTheListNeighbour(s.sessions, idx);
    }
  }

  lemma AgreeAsNeighbours(s: Sidebar, ws: Workspace)
    requires s.Valid() && OnDisplay(s.ViewOf(), ws) && |ListedIds(s.sessions, ws)| > 1
    requires NoPaneReturns(s, ws) && PanesFirst(s.Rows(ws))
    ensures var listed, displayed := ListedIds(s.sessions, ws), DisplayedIds(s.sessions, RanksOf(s.listing), ws);
            Elements(listed) == Elements(displayed)
            && ((forall idx :: 0 <= idx < |s.sessions| && s.sessions[idx].workspace == ws ==> SiblingAgrees(s, idx))
                <==> SameNeighbours(listed, displayed))
  {
    var listed, displayed := ListedIds(s.sessions, ws), DisplayedIds(s.sessions, RanksOf(s.listing), ws);
    OrdersOfTheSame(s.sessions, RanksOf(s.listing), ws);
    forall idx | 0 <= idx < |s.sessions| && s.sessions[idx].workspace == ws
      ensures AgreesAsNeighbour(s, ws, idx)
    {
      AgreeAsNeighbour(s, ws, idx);
    }
    EachHasASession(s.sessions, ws);
    if forall idx :: 0 <= idx < |s.sessions| && s.sessions[idx].workspace == ws ==> SiblingAgrees(s, idx) {
      forall id | id in listed
        ensures id in Elements(displayed) && NeighbourOf(listed, id) == NeighbourOf(displayed, id)
      {
        var idx :| 0 <= idx < |s.sessions| && s.sessions[idx].workspace == ws && s.sessions[idx].id == id;
        assert AgreesAsNeighbour(s, ws, idx) && SiblingAgrees(s, idx);
      }
    }
    if SameNeighbours(listed, displayed) {
      forall idx | 0 <= idx < |s.sessions| && s.sessions[idx].workspace == ws
        ensures SiblingAgrees(s, idx)
      {
        assert AgreesAsNeighbour(s, ws, idx);
      }
    }
  }

  ghost predicate AgreesAsNeighbour(s: Sidebar, ws: Workspace, idx: nat)
    requires idx < |s.sessions|
  {
    var id := s.sessions[idx].id;
    var listed, displayed := ListedIds(s.sessions, ws), DisplayedIds(s.sessions, RanksOf(s.listing), ws);
    id in listed && id in displayed && (SiblingAgrees(s, idx) <==> NeighbourOf(listed, id) == NeighbourOf(displayed, id))
  }

  lemma AgreeAsNeighbour(s: Sidebar, ws: Workspace, idx: nat)
    requires s.Valid() && OnDisplay(s.ViewOf(), ws) && |ListedIds(s.sessions, ws)| > 1
    requires NoPaneReturns(s, ws) && PanesFirst(s.Rows(ws))
    requires idx < |s.sessions| && s.sessions[idx].workspace == ws
    ensures AgreesAsNeighbour(s, ws, idx)
  {
    AgreesOnOne(s, idx);
    LandsOnDisplayed(s, idx);
    if LeavesLoneShell(s.sessions, s.listing, idx, s.always) {
      LoneLeavesTwo(s, idx);
      OrdersOfTheSame(s.sessions, RanksOf(s.listing), ws);
      TwoHaveOneNeighbour(ListedIds(s.sessions, ws), DisplayedIds(s.sessions, RanksOf(s.listing), ws), s.sessions[idx].id);
    }
  }

  lemma TwoHaveOneNeighbour(a: seq<nat>, b: seq<nat>, id: nat)
    requires Distinct(a) && Distinct(b) && Elements(a) == Elements(b) && |a| <= 2 && id in a && id in b
    ensures NeighbourOf(a, id) == NeighbourOf(b, id)
  {
    SameNeighboursExactlyWhen(a, b);
  }
}
