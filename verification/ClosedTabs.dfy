/** Closing the tab under the sidebar's cursor, from the display before to the
    cursor after the next pass: a tab may return to the one it took over from,
    and the policy may open a shell before the cursor is repaired. */
module ClosedTabs {
  import opened AppState
  import opened CloseLandings
  import opened CloseOutcomes
  import opened CloseSessions
  import opened CursorLandings
  import opened DisplayOrder
  import opened Neighbours
  import opened Options
  import opened PaneListings
  import opened Seqs
  import opened Sessions
  import opened Shadows
  import opened SidebarFocus
  import opened SnapshotRows
  import opened Snapshots

  /** A tab on display, about to be closed with the cursor on it. */
  datatype TabClose = TabClose(shown: Sidebar, idx: nat, app: State, reason: Reason, cfg: Config, world: World) {
    ghost predicate Valid() {
      && shown.Valid() && idx < |shown.sessions| && shown.ShowsTab(idx)
      && Consistent(app) && app.sessions == shown.sessions && !reason.WorktreeDeleted? && SpawnsFresh(app, world)
    }

    function Tab(): Session
      requires idx < |shown.sessions|
    {
      shown.sessions[idx]
    }

    function Home(): Workspace
      requires idx < |shown.sessions|
    {
      Tab().workspace
    }

    function Left(): seq<Session>
      requires idx < |shown.sessions|
    {
      RemoveAt(shown.sessions, idx)
    }

    /** What the application is left with before the pass. */
    function Outcome(): (State, Option<Verdict>)
      requires idx < |shown.sessions|
    {
      Closed(app, [Tab().id], Home(), reason, cfg, world)
    }

    /** The display at that pass. */
    function After(): Sidebar
      requires idx < |shown.sessions|
    {
      shown.(sessions := Outcome().0.sessions)
    }

    /** The tab it returns to. */
    function Back(): Option<nat>
      requires idx < |shown.sessions|
    {
      ReturnTarget(app, Tab().id, cfg.goesBack)
    }

    /** Where the cursor is when it is repaired. */
    function Cursor(): Option<Row>
      requires idx < |shown.sessions|
    {
      PinnedCursor(app, Some(Row.SessionRow(Tab().id)), [Tab().id], cfg.goesBack)
    }

    /** The tab was the last of the workspace on screen, and is not a spawn that
        failed. */
    predicate Empties()
      requires idx < |shown.sessions|
    {
      reason.User? && Home() == app.current && !Live(Left(), Home())
    }

    /** Home is emptied and, not following, shown again at once. */
    predicate ReopensHome()
      requires idx < |shown.sessions|
    {
      !cfg.follows && Home().None? && VerdictOf(app, Left(), [Tab().id], Home(), reason, cfg, world) == Verdict.Home
    }

    /** The shell the close opens in the workspace, if it does. */
    function Opened(): Option<nat>
      requires idx < |shown.sessions|
    {
      if Empties() && (cfg.policy.Respawn? || ReopensHome()) then world.spawns(Home()) else None
    }
  }

  // ---- The sessions at the next pass ----

  /** One shell more, with an id of its own. */
  ghost predicate OneMore(left: seq<Session>, after: seq<Session>, ws: Workspace, id: nat) {
    after == left + [Session(ws, id, None, Shell)] && forall v :: !Holds(left, v, id)
  }

  /** The same sessions, or one shell more in another workspace. */
  ghost predicate SameIn(left: seq<Session>, after: seq<Session>, ws: Workspace, closed: nat) {
    after == left || exists v, id :: v != ws && id != closed && OneMore(left, after, v, id)
  }

  lemma EnsuringAddsAtMostOne(s: State, w: World)
    requires forall v, id :: w.spawns(s.current) == Some(id) ==> !Holds(s.sessions, v, id)
    ensures var after := EnsureActive(s, w).sessions;
            || after == s.sessions
            || (w.spawns(s.current).Some? && OneMore(s.sessions, after, s.current, w.spawns(s.current).value))
  {
  }

  /** An empty workspace is shown with the shell spawned for it. */
  lemma EnsuringAnEmptyOne(s: State, w: World)
    requires Consistent(s) && !Live(s.sessions, s.current)
    ensures EnsureActive(s, w) == TrySpawn(s, s.current, w)
  {
    FilterElements(s.sessions, InWorkspace(s.current));
    NothingShown(s.sessions, s.current);
    LiveMeansHeld(s.sessions, s.current);
    assert s.current !in s.active;
  }

  lemma NothingShown(sessions: seq<Session>, ws: Workspace)
    requires !Live(sessions, ws)
    ensures SessionsOf(sessions, ws) == []
  {
    forall x | x in sessions
      ensures !InWorkspace(ws)(x)
    {
      var i := IndexIn(sessions, x);
    }
    FilterNone(sessions, InWorkspace(ws));
  }

  /** The state once the tab is removed. */
  lemma LeftOver(c: TabClose)
    requires c.Valid()
    ensures var left := RemoveEach(c.app, [c.Tab().id], c.cfg.follows, c.cfg.goesBack);
            && left == RemoveOne(c.app, c.Tab().id, c.cfg.follows, c.cfg.goesBack) && left.sessions == c.Left()
            && left.current == c.app.current && Consistent(left) && SpawnsFresh(left, c.world)
    ensures Holds(c.app.sessions, c.Home(), c.Tab().id) && forall v :: c.world.spawns(v) != Some(c.Tab().id)
  {
    RemovedAlone(c.app, c.idx, c.cfg);
    FreshAfterRemoval(c.app, RemoveOne(c.app, c.Tab().id, c.cfg.follows, c.cfg.goesBack), c.world, c.Tab().id);
    assert Holds(c.app.sessions, c.Home(), c.Tab().id);
  }

  lemma RemovedAlone(s: State, idx: nat, cfg: Config)
    requires Consistent(s) && idx < |s.sessions|
    ensures var id := s.sessions[idx].id;
            var left := RemoveOne(s, id, cfg.follows, cfg.goesBack);
            && RemoveEach(s, [id], cfg.follows, cfg.goesBack) == left && left.sessions == RemoveAt(s.sessions, idx)
            && left.current == s.current && Consistent(left)
            && forall ws, k :: Holds(left.sessions, ws, k) <==> Holds(s.sessions, ws, k) && k != id
  {
    var id := s.sessions[idx].id;
    assert Position(s.sessions, id) == Some(idx);
    assert [id][1..] == [];
    RemoveOneIsConsistent(s, id, cfg.follows, cfg.goesBack);
  }

  lemma FreshAfterRemoval(s: State, left: State, w: World, id: nat)
    requires SpawnsFresh(s, w) && forall ws, k :: Holds(left.sessions, ws, k) <==> Holds(s.sessions, ws, k) && k != id
    ensures SpawnsFresh(left, w)
  {
  }

  lemma VerdictStays(c: TabClose)
    requires c.Valid()
    ensures VerdictOf(c.app, c.Left(), [c.Tab().id], c.Home(), c.reason, c.cfg, c.world).Stay? <==> !c.Empties()
  {
  }

  /** The close leaves the other sessions and the shell it opened, if any; not
      following it may open another one elsewhere. */
  lemma SessionsAtThePass(c: TabClose)
    requires c.Valid()
    ensures var after := c.Outcome().0.sessions;
            if c.Opened().Some? then OneMore(c.Left(), after, c.Home(), c.Opened().value) && !Live(c.Left(), c.Home())
            else SameIn(c.Left(), after, c.Home(), c.Tab().id)
  {
    LeftOver(c);
    VerdictStays(c);
    var left := RemoveEach(c.app, [c.Tab().id], c.cfg.follows, c.cfg.goesBack);
    var verdict := VerdictOf(c.app, c.Left(), [c.Tab().id], c.Home(), c.reason, c.cfg, c.world);
    if c.Empties() && !c.cfg.policy.Respawn? && !c.cfg.follows {
      ActingAddsAtMostOne(c, left, verdict);
    }
  }

  lemma ActingAddsAtMostOne(c: TabClose, left: State, verdict: Verdict)
    requires c.Valid() && c.Empties() && !c.cfg.policy.Respawn? && !c.cfg.follows
    requires left.sessions == c.Left() && left.current == c.app.current && Consistent(left) && SpawnsFresh(left, c.world)
    requires forall v :: c.world.spawns(v) != Some(c.Tab().id)
    requires verdict == VerdictOf(c.app, c.Left(), [c.Tab().id], c.Home(), c.reason, c.cfg, c.world)
    ensures var after := ApplyVerdict(left, verdict, c.world).sessions;
            if c.Opened().Some? then OneMore(c.Left(), after, c.Home(), c.Opened().value)
            else SameIn(c.Left(), after, c.Home(), c.Tab().id)
  {
    match verdict
    case Stay =>
    case ActivateSession(id) =>
    case Activate(main) =>
      MainIsElsewhere(c, left.sessions, main);
      EnsuringAddsAtMostOne(left.(current := Some(main)), c.world);
    case Home => GoingHomeAddsAtMostOne(c, left.(current := None));
  }

  lemma GoingHomeAddsAtMostOne(c: TabClose, home: State)
    requires c.Valid() && c.Empties() && !c.cfg.policy.Respawn? && !c.cfg.follows
    requires home.sessions == c.Left() && home.current.None? && Consistent(home) && SpawnsFresh(home, c.world)
    requires forall v :: c.world.spawns(v) != Some(c.Tab().id)
    requires VerdictOf(c.app, c.Left(), [c.Tab().id], c.Home(), c.reason, c.cfg, c.world) == Verdict.Home
    ensures var after := EnsureActive(home, c.world).sessions;
            if c.Opened().Some? then OneMore(c.Left(), after, c.Home(), c.Opened().value)
            else SameIn(c.Left(), after, c.Home(), c.Tab().id)
  {
    EnsuringAddsAtMostOne(home, c.world);
    if c.Home().None? {
      EnsuringAnEmptyOne(home, c.world);
    }
  }

  lemma MainIsElsewhere(c: TabClose, left: seq<Session>, main: string)
    requires c.Valid() && c.Empties() && left == c.Left()
    requires VerdictOf(c.app, left, [c.Tab().id], c.Home(), c.reason, c.cfg, c.world) == Activate(main)
    ensures c.Home() != Some(main)
  {
  }

  // ---- The display at the next pass ----

  lemma OneMoreIsDistinct(left: seq<Session>, after: seq<Session>, ws: Workspace, id: nat)
    requires DistinctIds(left) && OneMore(left, after, ws, id)
    ensures DistinctIds(after)
  {
    forall i | 0 <= i < |left|
      ensures left[i].id != id
    {
      assert Holds(left, left[i].workspace, left[i].id);
    }
  }

  /** The display at the pass is one of distinct sessions, and the closed tab is
      none of them. */
  lemma AfterIsValid(c: TabClose)
    requires c.Valid()
    ensures c.After().Valid() && Position(c.After().sessions, c.Tab().id).None?
    ensures OnDisplay(c.After().ViewOf(), c.Home()) <==> OnDisplay(c.shown.ViewOf(), c.Home())
    ensures Shadowed(c.After().ViewOf(), c.Home()) <==> Shadowed(c.shown.ViewOf(), c.Home())
  {
    var after := c.After().sessions;
    RemovalKeepsDistinctIds(c.shown.sessions, c.idx);
    ClosedIsGone(c.shown.sessions, c.idx);
    SessionsAtThePass(c);
    LeftOver(c);
    if c.Opened().Some? {
      OneMoreIsDistinct(c.Left(), after, c.Home(), c.Opened().value);
    } else if after != c.Left() {
      var ws, id :| ws != c.Home() && id != c.Tab().id && OneMore(c.Left(), after, ws, id);
      OneMoreIsDistinct(c.Left(), after, ws, id);
    }
  }

  /** Without a shell opened in it, the workspace lists what the close left. */
  lemma RowsWithoutAShell(c: TabClose)
    requires c.Valid() && c.Opened().None?
    ensures c.After().Rows(c.Home()) == c.shown.Without(c.idx).Rows(c.Home())
    ensures Live(c.After().sessions, c.Home()) <==> Live(c.Left(), c.Home())
    ensures forall id :: Holds(c.Left(), c.Home(), id) ==> Holds(c.After().sessions, c.Home(), id)
  {
    SessionsAtThePass(c);
    var left, after := c.Left(), c.After().sessions;
    if after != left {
      var v, id :| v != c.Home() && id != c.Tab().id && OneMore(left, after, v, id);
      var x := Session(v, id, None, Shell);
      OneShellMore(left, x, c.Home());
      RowsSame(left, after, c.shown.listing, c.Home(), c.shown.always);
      OneMoreHolds(left, after, v, id, c.Home());
    }
  }

  lemma OneMoreHolds(left: seq<Session>, after: seq<Session>, v: Workspace, id: nat, ws: Workspace)
    requires OneMore(left, after, v, id)
    ensures forall other :: Holds(after, ws, other) <==> Holds(left, ws, other) || (ws == v && other == id)
    ensures Live(after, ws) <==> Live(left, ws) || ws == v
  {
    forall other
      ensures Holds(after, ws, other) <==> Holds(left, ws, other) || (ws == v && other == id)
    {
      if Holds(left, ws, other) {
        var i :| 0 <= i < |left| && left[i].workspace == ws && left[i].id == other;
        assert after[i] == left[i];
      }
      assert after[|left|].workspace == v && after[|left|].id == id;
    }
    LiveMeansHeld(left, ws);
    LiveMeansHeld(after, ws);
    assert after[|left|].workspace == v && after[|left|].id == id;
    assert Holds(after, v, id);
  }

  // ---- Where the cursor lands ----

  /** Beside a shell that is opened, which is listed first: it takes the cursor from
      the first row of the workspace, and the pane above takes it from another; but
      nothing does, when the shell is not listed. */
  function BesideAShell(rows: seq<Entry>, e: Entry, shell: Entry, hidden: bool): Option<Entry>
    requires e in rows
  {
    var k := IndexOf(rows, e);
    if hidden then None else Some(if k == 0 then shell else rows[k - 1])
  }

  /** A shell alone in the workspace would not be listed. */
  predicate Hides(c: TabClose)
    requires c.idx < |c.shown.sessions|
  {
    !c.shown.always && Unclaimed(c.shown.listing, c.Left(), c.Home()) == []
  }

  /** What takes the cursor when the tab returns nowhere. */
  function Landing(c: TabClose): Option<Entry>
    requires c.idx < |c.shown.sessions| && c.shown.ShowsTab(c.idx)
  {
    if c.Opened().None? then LandingEntry(c.shown, c.idx)
    else BesideAShell(c.shown.Rows(c.Home()), Entry.SessionRow(c.Tab().id), Entry.SessionRow(c.Opened().value), Hides(c))
  }

  /** What the terminal is offered there: a session's row itself, and the
      workspace when it is left with one session, which is not listed. */
  function LandingOffer(c: TabClose): Option<FollowTarget>
    requires c.idx < |c.shown.sessions| && c.shown.ShowsTab(c.idx)
  {
    match Landing(c)
    case Some(SessionRow(id)) => Some(ToSession(id))
    case Some(PaneRow(_)) => None
    case None =>
      if c.Opened().Some? || LeavesLoneShell(c.shown.sessions, c.shown.listing, c.idx, c.shown.always)
      then Some(ToWorkspace(c.Home()))
      else None
  }

  /** The cursor, anchor and offer after the pass. A tab that is returned to holds
      the cursor, and nothing is offered; if it is a lone shell that is not listed,
      the cursor is on the workspace's row, anchored to it. In a worktree that a
      collapsed project lists first the cursor climbs to that project's row. */
  function RepairedAfter(c: TabClose): Repaired
    requires c.idx < |c.shown.sessions| && c.shown.ShowsTab(c.idx)
  {
    if Shadowed(c.shown.ViewOf(), c.Home()) then
      Repaired(Some(ProjectRow(ListedBy(c.shown.projects, c.Home().value).value.root)),
               if c.Back().Some? then Some(Row.SessionRow(c.Back().value)) else None, None)
    else if c.Back().Some? then
      var back := Row.SessionRow(c.Back().value);
      if LeavesLoneShell(c.shown.sessions, c.shown.listing, c.idx, c.shown.always)
      then Repaired(Some(HeadRow(c.Home())), Some(back), None)
      else Repaired(Some(back), None, None)
    else Repaired(Some(LandsOn(c.Home(), Landing(c))), None, LandingOffer(c))
  }

  lemma OpenedRows(c: TabClose)
    requires c.Valid() && c.Opened().Some?
    ensures var panes, left := Unclaimed(c.shown.listing, c.Left(), c.Home()), c.shown.Without(c.idx).Rows(c.Home());
            && |left| == |panes| && !LeavesLoneShell(c.shown.sessions, c.shown.listing, c.idx, c.shown.always)
            && c.After().Rows(c.Home())
               == if Hides(c) then [] else [Entry.SessionRow(c.Opened().value)] + left
  {
    SessionsAtThePass(c);
    NothingShown(c.Left(), c.Home());
    RowsWithAShell(c.Left(), Session(c.Home(), c.Opened().value, None, Shell), c.shown.listing, c.shown.always);
  }

  /** The landing is what stands where the closed tab's row did. */
  lemma LandingIsTheEntry(c: TabClose)
    requires c.Valid()
    ensures var rows := c.shown.Rows(c.Home());
            && Distinct(rows)
            && Landing(c) == EntryAt(c.After().Rows(c.Home()), IndexOf(rows, Entry.SessionRow(c.Tab().id)))
  {
    EntryAfterAClose(c.shown, c.idx);
    if c.Opened().None? {
      RowsWithoutAShell(c);
    } else {
      OpenedLandingIsTheEntry(c);
    }
  }

  lemma OpenedLandingIsTheEntry(c: TabClose)
    requires c.Valid() && c.Opened().Some?
    ensures Landing(c) == EntryAt(c.After().Rows(c.Home()), IndexOf(c.shown.Rows(c.Home()), Entry.SessionRow(c.Tab().id)))
  {
    OpenedRows(c);
    OneRowChanges(c.shown, c.idx);
    EntryUnderAShell(c.shown.Rows(c.Home()), c.shown.Without(c.idx).Rows(c.Home()), c.After().Rows(c.Home()),
                     Entry.SessionRow(c.Tab().id), Entry.SessionRow(c.Opened().value), Hides(c));
  }

  lemma OneRowChanges(s: Sidebar, idx: nat)
    requires s.Valid() && idx < |s.sessions| && s.ShowsTab(idx) && !LeavesLoneShell(s.sessions, s.listing, idx, s.always)
    ensures var rows, left := s.Rows(s.sessions[idx].workspace), s.Without(idx).Rows(s.sessions[idx].workspace);
            var k := IndexOf(rows, Entry.SessionRow(s.sessions[idx].id));
            left == RemoveAt(rows, k) || (|left| == |rows| && left == rows[k := left[k]])
  {
    RowsAfterAClose(s.sessions, s.listing, idx, s.always);
  }

  lemma EntryUnderAShell(rows: seq<Entry>, left: seq<Entry>, after: seq<Entry>, e: Entry, shell: Entry, hidden: bool)
    requires e in rows && after == if hidden then [] else [shell] + left
    requires var k := IndexOf(rows, e); left == RemoveAt(rows, k) || (|left| == |rows| && left == rows[k := left[k]])
    ensures BesideAShell(rows, e, shell, hidden) == EntryAt(after, IndexOf(rows, e))
  {
    var k := IndexOf(rows, e);
    assert k > 0 ==> left[k - 1] == rows[k - 1];
  }

  lemma OfferAtTheLanding(c: TabClose, next: Tree, there: nat)
    requires c.Valid() && there < |next.nodes| && Find(next, HeadRow(c.Home())) == Some(there)
    requires HasSession(next, there) <==> Live(c.After().sessions, c.Home())
    ensures Offer(next, LandsOn(c.Home(), Landing(c))) == LandingOffer(c)
  {
    match Landing(c)
    case Some(e) => assert LandsOn(c.Home(), Some(e)) == RowOf(e);
    case None =>
      OfferAtHead(next, there, c.Home());
      LiveAtAnEmptyLanding(c);
  }

  lemma LiveAtAnEmptyLanding(c: TabClose)
    requires c.Valid() && Landing(c).None?
    ensures Live(c.After().sessions, c.Home())
       <==> c.Opened().Some? || LeavesLoneShell(c.shown.sessions, c.shown.listing, c.idx, c.shown.always)
  {
    LandingIsTheEntry(c);
    if c.Opened().None? {
      RowsWithoutAShell(c);
      EmptyRowsAfterAClose(c.shown, c.idx);
    } else {
      SessionsAtThePass(c);
      OneMoreHolds(c.Left(), c.After().sessions, c.Home(), c.Opened().value, c.Home());
    }
  }

  // ---- The cursor after the pass ----

  lemma BackIsLeft(c: TabClose)
    requires c.Valid() && c.Back().Some?
    ensures c.Back().value != c.Tab().id && Holds(c.Left(), c.Home(), c.Back().value)
    ensures Live(c.Left(), c.Home()) && c.Opened().None? && c.Cursor() == Some(Row.SessionRow(c.Back().value))
  {
    BackIsHeld(c.app, c.Tab().id, c.idx, c.cfg.goesBack);
    HoldsAfterRemoval(c.shown.sessions, c.idx, c.Home(), c.Back().value);
    HeldIsLive(c.Left(), c.Home(), c.Back().value);
    NothingOpens(c);
    PinnedToBack(c);
  }

  lemma NothingOpens(c: TabClose)
    requires c.idx < |c.shown.sessions| && Live(c.Left(), c.Home())
    ensures c.Opened().None?
  {
  }

  lemma PinnedToBack(c: TabClose)
    requires c.idx < |c.shown.sessions| && c.Back().Some?
    ensures c.Cursor() == Some(Row.SessionRow(c.Back().value))
  {
  }

  lemma HeldIsLive(sessions: seq<Session>, ws: Workspace, id: nat)
    requires Holds(sessions, ws, id)
    ensures Live(sessions, ws)
  {
  }

  lemma BackIsHeld(s: State, id: nat, idx: nat, goesBack: bool)
    requires Consistent(s) && idx < |s.sessions| && s.sessions[idx].id == id && ReturnTarget(s, id, goesBack).Some?
    ensures var back := ReturnTarget(s, id, goesBack).value;
            back != id && Holds(s.sessions, s.sessions[idx].workspace, back)
  {
    assert Position(s.sessions, id) == Some(idx);
  }

  /** A session that is left is listed unless it is a lone shell below the
      threshold. */
  lemma LeftIsListedUnlessLone(s: Sidebar, idx: nat, id: nat)
    requires s.Valid() && idx < |s.sessions| && Holds(RemoveAt(s.sessions, idx), s.sessions[idx].workspace, id)
    ensures Entry.SessionRow(id) in s.Without(idx).Rows(s.sessions[idx].workspace)
       <==> !LeavesLoneShell(s.sessions, s.listing, idx, s.always)
  {
    var left, ws := RemoveAt(s.sessions, idx), s.sessions[idx].workspace;
    var i :| 0 <= i < |left| && left[i].workspace == ws && left[i].id == id;
    var shells, managed := ShellRows(left, ws), ManagedEntries(left, s.listing, ws);
    RowsInParts(left, s.listing, ws, s.always);
    LoneShellExactlyWhen(s.sessions, s.listing, idx, s.always);
    ShellRowsAre(left, ws);
    ManagedEntriesAre(left, s.listing, ws);
    assert left[i] in left;
    assert PaneListings.HasRow(left, ws, id, left[i].pane.Some?);
    assert IsManaged(left, s.listing, ws, Entry.SessionRow(id)) || Entry.SessionRow(id) in shells;
  }

  /** The pass over a tab that returns to another. */
  lemma ReturnedTabLands(c: TabClose, prev: Tree, anchor: Option<Row>)
    requires c.Valid() && c.Back().Some? && OnDisplay(c.shown.ViewOf(), c.Home()) && prev.Valid()
    ensures c.After().Snapshot().Valid()
    ensures Repair(prev, c.After().Snapshot(), c.Cursor(), anchor) == RepairedAfter(c)
  {
    var row, next := Row.SessionRow(c.Back().value), c.After();
    BackIsLeft(c);
    AfterIsValid(c);
    RowsWithoutAShell(c);
    LeftIsListedUnlessLone(c.shown, c.idx, c.Back().value);
    var k := SidebarSeats(next, c.Home());
    if LeavesLoneShell(c.shown.sessions, c.shown.listing, c.idx, c.shown.always) {
      var i :| 0 <= i < |next.sessions| && next.sessions[i].workspace == c.Home() && next.sessions[i].id == c.Back().value;
      assert next.sessions[i] in next.sessions;
      RepairClimbsToTheHead(prev, next.Snapshot(), k, c.Home(), next.Rows(c.Home()), c.Back().value, anchor);
    } else {
      RepairKeepsTheCursor(prev, next.Snapshot(), k, c.Home(), next.Rows(c.Home()), Entry.SessionRow(c.Back().value), anchor);
    }
  }

  /** The pass over one that returns nowhere. */
  lemma UnreturnedTabLands(c: TabClose, anchor: Option<Row>)
    requires c.Valid() && c.Back().None? && OnDisplay(c.shown.ViewOf(), c.Home())
    ensures c.shown.Snapshot().Valid() && c.After().Snapshot().Valid()
    ensures Repair(c.shown.Snapshot(), c.After().Snapshot(), c.Cursor(), anchor) == RepairedAfter(c)
  {
    AfterIsValid(c);
    var k := SidebarSeats(c.shown, c.Home());
    var there := SidebarSeats(c.After(), c.Home());
    UnreturnedBetween(c, c.shown.Snapshot(), c.After().Snapshot(), k, there, anchor);
  }

  lemma UnreturnedBetween(c: TabClose, prev: Tree, next: Tree, k: nat, there: nat, anchor: Option<Row>)
    requires c.Valid() && c.Back().None? && OnDisplay(c.shown.ViewOf(), c.Home()) && !next.filtering
    requires Seated(prev, k, c.Home(), c.shown.Rows(c.Home())) && Seated(next, there, c.Home(), c.After().Rows(c.Home()))
    requires HasSession(next, there) <==> Live(c.After().sessions, c.Home())
    requires Find(next, Row.SessionRow(c.Tab().id)).None?
    ensures Repair(prev, next, c.Cursor(), anchor) == RepairedAfter(c)
  {
    var e := Entry.SessionRow(c.Tab().id);
    LandingIsTheEntry(c);
    RepairsBetween(prev, next, k, there, c.Home(), c.shown.Rows(c.Home()), c.After().Rows(c.Home()), e, anchor);
    OfferAtTheLanding(c, next, there);
    assert c.Cursor() == Some(RowOf(e));
  }

  /** Closing the tab under the cursor, over every sidebar that shows it and every
      state and policy of the application, leaves cursor, anchor and offer exactly
      so. */
  lemma ClosedTabLands(c: TabClose, anchor: Option<Row>)
    requires c.Valid()
    ensures c.shown.Snapshot().Valid() && c.After().Snapshot().Valid()
    ensures Repair(c.shown.Snapshot(), c.After().Snapshot(), c.Cursor(), anchor) == RepairedAfter(c)
  {
    if Shadowed(c.shown.ViewOf(), c.Home()) {
      ShadowedTabLands(c, anchor);
    } else if c.Back().Some? {
      var _ := SidebarSeats(c.shown, c.Home());
      ReturnedTabLands(c, c.shown.Snapshot(), anchor);
    } else {
      UnreturnedTabLands(c, anchor);
    }
  }

  /** The pass where a collapsed project lists the worktree first. */
  lemma ShadowedTabLands(c: TabClose, anchor: Option<Row>)
    requires c.Valid() && Shadowed(c.shown.ViewOf(), c.Home())
    ensures c.shown.Snapshot().Valid() && c.After().Snapshot().Valid()
    ensures Repair(c.shown.Snapshot(), c.After().Snapshot(), c.Cursor(), anchor) == RepairedAfter(c)
  {
    var path := c.Home().value;
    AfterIsValid(c);
    var k, p := SidebarHides(c.shown, path);
    var there, at := SidebarHides(c.After(), path);
    if c.Back().Some? {
      ShadowedReturns(c, c.shown.Snapshot(), c.After().Snapshot(), there, at, anchor);
    } else {
      ShadowedCloses(c, c.shown.Snapshot(), c.After().Snapshot(), k, p, there, at, anchor);
    }
  }

  lemma ShadowedReturns(c: TabClose, prev: Tree, next: Tree, there: nat, at: nat, anchor: Option<Row>)
    requires c.Valid() && Shadowed(c.shown.ViewOf(), c.Home()) && c.Back().Some? && prev.Valid() && !next.filtering
    requires var root := ListedBy(c.shown.projects, c.Home().value).value.root;
             Hidden(next, there, at, c.After().ViewOf(), c.Home().value, root) && next.Draws(ProjectRow(root))
    ensures Repair(prev, next, c.Cursor(), anchor) == RepairedAfter(c)
  {
    var after := c.After().sessions;
    BackIsLeft(c);
    RowsWithoutAShell(c);
    var i :| 0 <= i < |after| && after[i].workspace == c.Home() && after[i].id == c.Back().value;
    assert after[i] in c.After().ViewOf().live;
    OpenThereClimbs(prev, next, there, at, c.After().ViewOf(), c.Home().value,
                    ListedBy(c.shown.projects, c.Home().value).value.root, c.Back().value, anchor);
  }

  lemma ShadowedCloses(c: TabClose, prev: Tree, next: Tree, k: nat, p: nat, there: nat, at: nat, anchor: Option<Row>)
    requires c.Valid() && Shadowed(c.shown.ViewOf(), c.Home()) && c.Back().None? && !next.filtering
    requires var root := ListedBy(c.shown.projects, c.Home().value).value.root;
             && Hidden(prev, k, p, c.shown.ViewOf(), c.Home().value, root)
             && Hidden(next, there, at, c.After().ViewOf(), c.Home().value, root) && next.Draws(ProjectRow(root))
    requires Find(next, Row.SessionRow(c.Tab().id)).None?
    ensures Repair(prev, next, c.Cursor(), anchor) == RepairedAfter(c)
  {
    assert c.Tab() in c.shown.ViewOf().live;
    ClosedThereClimbs(prev, next, k, p, there, at, c.shown.ViewOf(), c.After().ViewOf(), c.Home().value,
                      ListedBy(c.shown.projects, c.Home().value).value.root, c.Tab().id, anchor);
  }

  // ---- When the active entry goes there too ----

  /** The tab that takes over the workspace's active entry under follow. */
  function Successor(c: TabClose): Option<nat>
    requires c.idx < |c.shown.sessions|
  {
    if c.Back().Some? then c.Back() else SiblingAfter(c.Left(), c.Home(), c.idx, true)
  }

  /** The cursor goes to that tab too, or to the workspace's row when it is all
      that is left there. */
  ghost predicate Agree(c: TabClose)
    requires c.idx < |c.shown.sessions| && c.shown.ShowsTab(c.idx)
  {
    Successor(c).Some? ==>
      var cursor := RepairedAfter(c).cursor;
      || cursor == Some(Row.SessionRow(Successor(c).value))
      || (cursor == Some(HeadRow(c.Home())) && LeavesLoneShell(c.shown.sessions, c.shown.listing, c.idx, c.shown.always))
  }

  /** A tab that returns to another always takes both there. */
  lemma AgreesExactlyWhen(c: TabClose)
    requires c.Valid() && OnDisplay(c.shown.ViewOf(), c.Home())
    ensures Agree(c) <==> c.Back().Some? || SiblingAgrees(c.shown, c.idx)
  {
    if c.Back().None? {
      UnreturnedAgreesExactlyWhen(c);
    } else {
      ReturnedAgrees(c);
    }
  }

  lemma ReturnedAgrees(c: TabClose)
    requires c.Valid() && c.Back().Some? && OnDisplay(c.shown.ViewOf(), c.Home())
    ensures Agree(c)
  {
  }

  lemma UnreturnedAgreesExactlyWhen(c: TabClose)
    requires c.Valid() && c.Back().None? && OnDisplay(c.shown.ViewOf(), c.Home())
    ensures Agree(c) <==> SiblingAgrees(c.shown, c.idx)
  {
    var sibling := SiblingAfter(c.Left(), c.Home(), c.idx, true);
    if sibling.Some? {
      SiblingIsHeld(c.Left(), c.Home(), c.idx, true);
      LiveMeansHeld(c.Left(), c.Home());
      assert Landing(c) == LandingEntry(c.shown, c.idx);
      EmptyLandingIsLone(c);
      LandsOnASession(c.Home(), LandingEntry(c.shown, c.idx), sibling.value);
    }
  }

  lemma EmptyLandingIsLone(c: TabClose)
    requires c.Valid() && Live(c.Left(), c.Home()) && c.Opened().None?
    ensures Landing(c).None? ==> LeavesLoneShell(c.shown.sessions, c.shown.listing, c.idx, c.shown.always)
  {
    if Landing(c).None? {
      RowsWithoutAShell(c);
      LiveAtAnEmptyLanding(c);
    }
  }

  lemma LandsOnASession(ws: Workspace, landing: Option<Entry>, id: nat)
    ensures LandsOn(ws, landing) == Row.SessionRow(id) <==> landing == Some(Entry.SessionRow(id))
    ensures LandsOn(ws, landing) == HeadRow(ws) <==> landing.None?
  {
  }

  /** A close of this tab that returns nowhere. */
  function PlainClose(s: Sidebar, idx: nat): TabClose {
    TabClose(s, idx, State(s.sessions, map[], map[], None), User, Config(Navigate, true, false),
             World([], None, None, pane => None, path => false, ws => None))
  }

  /** Whatever tabs are active or return where, and under every policy, the cursor
      and the active entry go to one tab, for each tab of a workspace that is
      displayed, exactly when the workspace has one session at most, or: no tab's
      own pane would be listed in its place, no pane is listed below a session,
      and its list is in display order or has two sessions. */
  lemma CursorAndTerminalAgreeExactlyWhen(s: Sidebar, ws: Workspace)
    requires s.Valid() && OnDisplay(s.ViewOf(), ws)
    ensures var listed, displayed := ListedIds(s.sessions, ws), DisplayedIds(s.sessions, RanksOf(s.listing), ws);
            (forall c: TabClose :: c.Valid() && c.shown == s && c.Home() == ws ==> Agree(c))
            <==> |listed| <= 1 || (NoPaneReturns(s, ws) && PanesFirst(s.Rows(ws)) && (|listed| <= 2 || displayed == listed))
  {
    SiblingsAgreeExactlyWhen(s, ws);
    if forall idx :: 0 <= idx < |s.sessions| && s.sessions[idx].workspace == ws ==> SiblingAgrees(s, idx) {
      forall c: TabClose | c.Valid() && c.shown == s && c.Home() == ws
        ensures Agree(c)
      {
        AgreesExactlyWhen(c);
      }
    }
    if |ListedIds(s.sessions, ws)| > 1 && forall c: TabClose :: c.Valid() && c.shown == s && c.Home() == ws ==> Agree(c) {
      forall idx | 0 <= idx < |s.sessions| && s.sessions[idx].workspace == ws
        ensures SiblingAgrees(s, idx)
      {
        AgreesOnOne(s, idx);
        PlainCloseIsValid(s, idx);
        assert Agree(PlainClose(s, idx));
      }
    }
  }

  lemma PlainCloseIsValid(s: Sidebar, idx: nat)
    requires s.Valid() && idx < |s.sessions| && s.ShowsTab(idx) && OnDisplay(s.ViewOf(), s.sessions[idx].workspace)
    ensures var c := PlainClose(s, idx);
            c.Valid() && c.shown == s && c.Home() == s.sessions[idx].workspace && (Agree(c) <==> SiblingAgrees(s, idx))
  {
    var c := PlainClose(s, idx);
    assert c.Back().None?;
    AgreesExactlyWhen(c);
  }
}
