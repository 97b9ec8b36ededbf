/** Closing the tab under the cursor when the terminal follows: which session is
    shown after the pass, and what the closes of shells, tabs that return, lone
    tabs and attached tabs come to. */
module FollowedCloses {
  import opened AppState
  import opened ClosedTabs
  import opened CloseLandings
  import opened CloseOutcomes
  import opened CloseSessions
  import opened CursorLandings
  import opened DisplayOrder
  import opened Neighbours
  import opened Options
  import opened PaneListings
  import opened Seqs
  import opened Sessions
  import opened SidebarFocus
  import opened SnapshotRows
  import opened Snapshots

  // ---- What the terminal shows ----

  lemma RowIsHeld(sessions: seq<Session>, listing: Listing, ws: Workspace, always: bool, id: nat)
    requires Entry.SessionRow(id) in RowsFor(sessions, listing, ws, always)
    ensures Holds(sessions, ws, id)
  {
    RowsInParts(sessions, listing, ws, always);
    ShellRowsAre(sessions, ws);
    ManagedEntriesAre(sessions, listing, ws);
    var x :| x in sessions && x.workspace == ws && x.id == id;
    var i := IndexIn(sessions, x);
  }

  /** In a workspace left with one session, following the workspace shows it. */
  lemma LoneIsTheTarget(s: State, ws: Workspace, id: nat)
    requires Consistent(s) && Holds(s.sessions, ws, id)
    requires forall other :: Holds(s.sessions, ws, other) ==> other == id
    ensures TargetSession(s, ToWorkspace(ws)) == Some(id)
  {
    LiveMeansHeld(s.sessions, ws);
    FirstOfIsHeld(s.sessions, ws);
    PositionIsHeld(s.sessions, id);
  }

  lemma LoneShellIsTheSibling(s: Sidebar, idx: nat) returns (id: nat)
    requires s.Valid() && idx < |s.sessions| && LeavesLoneShell(s.sessions, s.listing, idx, s.always)
    ensures var left, ws := RemoveAt(s.sessions, idx), s.sessions[idx].workspace;
            && SiblingAfter(left, ws, idx, true) == Some(id) && Holds(left, ws, id)
            && forall other :: Holds(left, ws, other) ==> other == id
  {
    var left, ws := RemoveAt(s.sessions, idx), s.sessions[idx].workspace;
    LoneLeavesTwo(s, idx);
    CloseTakesTheListNeighbour(s.sessions, idx);
    id := SiblingAfter(left, ws, idx, true).value;
    SiblingIsHeld(left, ws, idx, true);
    OneIsHeld(left, ws);
  }

  lemma OneIsHeld(sessions: seq<Session>, ws: Workspace)
    requires |SessionsOf(sessions, ws)| == 1
    ensures forall id, other :: Holds(sessions, ws, id) && Holds(sessions, ws, other) ==> other == id
  {
    FilterElements(sessions, InWorkspace(ws));
    forall id | Holds(sessions, ws, id)
      ensures id == SessionsOf(sessions, ws)[0].id
    {
      var i :| 0 <= i < |sessions| && sessions[i].workspace == ws && sessions[i].id == id;
      assert sessions[i] in SessionsOf(sessions, ws);
    }
  }

  /** Following a target shows its session, in the workspace that holds it. */
  lemma FollowingShows(s: State, target: FollowTarget, ws: Workspace, id: nat)
    requires Consistent(s) && TargetSession(s, target) == Some(id) && Holds(s.sessions, ws, id)
    ensures var after := ApplyFollowTarget(s, target);
            after.current == ws && Active(after, ws) == Some(id)
  {
    PositionIsHeld(s.sessions, id);
    ActivatingLandsOnTheSession(s, id);
    OneHomePerSession(s.sessions, ActivateSessionById(s, id).current, ws, id);
  }

  /** Following, the state at the pass is the one the removal left, with the
      shell that was opened shown in it. */
  lemma FollowedOutcome(c: TabClose)
    requires c.Valid() && c.cfg.follows
    ensures var left := RemoveOne(c.app, c.Tab().id, true, c.cfg.goesBack);
            && left.sessions == c.Left() && left.current == c.app.current && Consistent(left)
            && c.Outcome().0 == (if c.Opened().Some? then Spawned(left, c.Home(), c.Opened().value) else left)
            && Consistent(c.Outcome().0)
            && (c.Opened().Some? || !c.Empties() ==> c.Outcome().1.None?)
  {
    LeftOver(c);
    VerdictStays(c);
    var left := RemoveOne(c.app, c.Tab().id, true, c.cfg.goesBack);
    if c.Opened().Some? {
      SpawnedIsConsistent(left, c.Home(), c.Opened().value);
    }
  }

  lemma LandingIsOpen(c: TabClose, id: nat)
    requires c.Valid() && Landing(c) == Some(Entry.SessionRow(id))
    ensures Holds(c.Outcome().0.sessions, c.Home(), id)
  {
    LandingIsTheEntry(c);
    var after := c.After();
    assert Entry.SessionRow(id) in after.Rows(c.Home());
    RowIsHeld(after.sessions, after.listing, c.Home(), after.always, id);
  }

  /** Beside a shell that is opened there are panes alone. */
  lemma OpenedOrAPane(c: TabClose)
    requires c.Valid() && c.Opened().Some? && Landing(c).Some?
    ensures Landing(c) == Some(Entry.SessionRow(c.Opened().value)) || Landing(c).value.PaneRow?
  {
    if Landing(c).value.SessionRow? {
      LandingIsOpen(c, Landing(c).value.id);
      SessionsAtThePass(c);
      OneMoreHolds(c.Left(), c.Outcome().0.sessions, c.Home(), c.Opened().value, c.Home());
      LiveMeansHeld(c.Left(), c.Home());
    }
  }

  /** The one session left in a workspace whose rows are not listed. */
  function Remaining(c: TabClose): Option<nat>
    requires c.idx < |c.shown.sessions|
  {
    if c.Opened().Some? then c.Opened() else SiblingAfter(c.Left(), c.Home(), c.idx, true)
  }

  lemma RemainingIsTheTarget(c: TabClose)
    requires c.Valid() && c.cfg.follows && LandingOffer(c) == Some(ToWorkspace(c.Home()))
    ensures var s := c.Outcome().0;
            && Remaining(c).Some? && Holds(s.sessions, c.Home(), Remaining(c).value)
            && TargetSession(s, ToWorkspace(c.Home())) == Remaining(c)
  {
    FollowedOutcome(c);
    var s := c.Outcome().0;
    if c.Opened().Some? {
      SessionsAtThePass(c);
      OneMoreHolds(c.Left(), s.sessions, c.Home(), c.Opened().value, c.Home());
      LiveMeansHeld(c.Left(), c.Home());
      LoneIsTheTarget(s, c.Home(), c.Opened().value);
    } else {
      var id := LoneShellIsTheSibling(c.shown, c.idx);
      LoneIsTheTarget(s, c.Home(), id);
    }
  }

  lemma TerminalReturns(c: TabClose)
    requires c.Valid() && c.cfg.follows && c.Back().Some?
    ensures var after := Settled(c.app, [c.Tab().id], c.Home(), c.reason, c.cfg, c.world, None);
            after.current == c.app.current && Active(after, c.Home()) == c.Back()
  {
    FollowedOutcome(c);
    BackIsLeft(c);
    assert Position(c.app.sessions, c.Tab().id) == Some(c.idx);
  }

  lemma TerminalShowsTheOpened(c: TabClose)
    requires c.Valid() && c.cfg.follows && c.Opened().Some?
    ensures var after := Settled(c.app, [c.Tab().id], c.Home(), c.reason, c.cfg, c.world, None);
            after.current == c.Home() && Active(after, c.Home()) == c.Opened()
  {
    FollowedOutcome(c);
  }

  /** Closing the tab under the cursor, under follow. Where a session is offered,
      the cursor is on its row and the terminal shows it; where the workspace is,
      the terminal shows the one session left there; and where nothing is, the
      terminal is where the close left it: on the tab returned to, or on the shell
      that was opened. */
  lemma TerminalFollowsTheCursor(c: TabClose)
    requires c.Valid() && c.cfg.follows
    ensures var r := RepairedAfter(c);
            var after := Settled(c.app, [c.Tab().id], c.Home(), c.reason, c.cfg, c.world, r.follow);
            match r.follow
            case Some(ToSession(id)) =>
              r.cursor == Some(Row.SessionRow(id)) && after.current == c.Home() && Active(after, c.Home()) == Some(id)
            case Some(ToWorkspace(ws)) =>
              && ws == c.Home() && r.cursor == Some(HeadRow(ws)) && after.current == ws
              && Active(after, ws) == Remaining(c) && Remaining(c).Some?
            case None =>
              && (c.Back().Some? ==> after.current == c.app.current && Active(after, c.Home()) == c.Back())
              && (c.Opened().Some? ==> after.current == c.Home() && Active(after, c.Home()) == c.Opened())
  {
    FollowedOutcome(c);
    match RepairedAfter(c).follow
    case Some(ToSession(id)) =>
      assert Landing(c) == Some(Entry.SessionRow(id));
      LandingIsOpen(c, id);
      FollowingShows(c.Outcome().0, ToSession(id), c.Home(), id);
    case Some(ToWorkspace(ws)) =>
      RemainingIsTheTarget(c);
      FollowingShows(c.Outcome().0, ToWorkspace(ws), ws, Remaining(c).value);
    case None =>
      if c.Back().Some? {
        TerminalReturns(c);
      }
      if c.Opened().Some? {
        TerminalShowsTheOpened(c);
      }
  }

  // ---- Workspaces of shells ----

  /** Every session of the workspace is a shell, and no pane is listed there. */
  ghost predicate OnlyShells(s: Sidebar, ws: Workspace) {
    (forall x :: x in s.sessions && x.workspace == ws ==> x.pane.None?) && Unclaimed(s.listing, s.sessions, ws) == []
  }

  lemma OneFewerIsLeft(sessions: seq<Session>, idx: nat)
    requires idx < |sessions|
    ensures var ws := sessions[idx].workspace;
            |SessionsOf(RemoveAt(sessions, idx), ws)| == |ListedIds(sessions, ws)| - 1
  {
    var ws := sessions[idx].workspace;
    FilterAt(sessions, idx, InWorkspace(ws));
    FilterConcat(sessions[..idx], sessions[idx + 1..], InWorkspace(ws));
  }

  lemma LoneAmongShells(s: Sidebar, idx: nat)
    requires s.Valid() && idx < |s.sessions| && OnlyShells(s, s.sessions[idx].workspace)
    ensures LeavesLoneShell(s.sessions, s.listing, idx, s.always)
       <==> |ListedIds(s.sessions, s.sessions[idx].workspace)| == 2 && !s.always
  {
    var left, ws := RemoveAt(s.sessions, idx), s.sessions[idx].workspace;
    OneFewerIsLeft(s.sessions, idx);
    NothingIsUnclaimed(s, idx);
    FilterElements(left, InWorkspace(ws));
    if |SessionsOf(left, ws)| == 1 {
      var y := SessionsOf(left, ws)[0];
      assert y in left;
      var i := IndexIn(left, y);
      assert y == s.sessions[if i < idx then i else i + 1];
      assert y in s.sessions;
    }
  }

  lemma NothingIsUnclaimed(s: Sidebar, idx: nat)
    requires idx < |s.sessions| && OnlyShells(s, s.sessions[idx].workspace)
    ensures Unclaimed(s.listing, RemoveAt(s.sessions, idx), s.sessions[idx].workspace) == []
  {
    var left, ws := RemoveAt(s.sessions, idx), s.sessions[idx].workspace;
    UnclaimedAre(s.sessions, s.listing, ws);
    UnclaimedAre(left, s.listing, ws);
    forall pane | pane in Unclaimed(s.listing, left, ws)
      ensures pane in Unclaimed(s.listing, s.sessions, ws)
    {
      ClaimsAfter(s.sessions, idx, pane);
    }
    NothingIn(Unclaimed(s.listing, s.sessions, ws), Unclaimed(s.listing, left, ws));
  }

  lemma OnlyRow(rows: seq<Entry>, e: Entry)
    requires Distinct(rows) && e in rows && forall other :: other in rows ==> other == e
    ensures NeighbourOf(rows, e).None?
  {
    forall i | 0 <= i < |rows|
      ensures rows[i] == e
    {
      assert rows[i] in rows;
    }
  }

  lemma AloneHasNoNeighbour(s: Sidebar, idx: nat)
    requires s.Valid() && idx < |s.sessions| && s.ShowsTab(idx) && OnlyShells(s, s.sessions[idx].workspace)
    requires |ListedIds(s.sessions, s.sessions[idx].workspace)| == 1
    ensures LandingEntry(s, idx).None?
  {
    var x, ws := s.sessions[idx], s.sessions[idx].workspace;
    var rows := s.Rows(ws);
    RowsDifferFromEachOther(s.sessions, s.listing, ws, s.always);
    NoPaneListed(s.sessions, s.listing, ws, s.always);
    CloseTakesTheListNeighbour(s.sessions, idx);
    forall e | e in rows
      ensures e == Entry.SessionRow(x.id)
    {
      RowIsListed(s.sessions, s.listing, ws, s.always, e.id);
    }
    OnlyRow(rows, Entry.SessionRow(x.id));
  }

  lemma RowIsListed(sessions: seq<Session>, listing: Listing, ws: Workspace, always: bool, id: nat)
    requires Entry.SessionRow(id) in RowsFor(sessions, listing, ws, always)
    ensures id in ListedIds(sessions, ws)
  {
    RowIsHeld(sessions, listing, ws, always, id);
    MapElements(SessionsOf(sessions, ws));
    FilterElements(sessions, InWorkspace(ws));
    var i :| 0 <= i < |sessions| && sessions[i].workspace == ws && sessions[i].id == id;
    assert sessions[i] in SessionsOf(sessions, ws);
  }

  lemma OneShellIsListed(s: Sidebar, idx: nat)
    requires s.Valid() && idx < |s.sessions| && s.ShowsTab(idx) && OnlyShells(s, s.sessions[idx].workspace)
    requires |ListedIds(s.sessions, s.sessions[idx].workspace)| == 1
    ensures s.always && IndexOf(s.Rows(s.sessions[idx].workspace), Entry.SessionRow(s.sessions[idx].id)) == 0
  {
    var ws, e := s.sessions[idx].workspace, Entry.SessionRow(s.sessions[idx].id);
    var rows := s.Rows(ws);
    AloneHasNoNeighbour(s, idx);
    LoneAmongShells(s, idx);
    assert s.sessions[idx] in s.sessions;
    assert NeighbourOf(rows, e).None?;
    RowsInParts(s.sessions, s.listing, ws, s.always);
    ManagedEntriesAre(s.sessions, s.listing, ws);
    assert HasRow(s.sessions, ws, s.sessions[idx].id, false);
    OneSessionPerId(s.sessions, ws, s.sessions[idx].id);
  }

  /** What closing a tab comes to in a workspace without a multiplexer's panes,
      given the tab it returns to and the shell the policy opens, if any: of two
      tabs, unless single rows are listed too, the workspace's row. */
  function AmongShells(listed: seq<nat>, id: nat, always: bool, ws: Workspace, back: Option<nat>, spawned: Option<nat>): Repaired
    requires id in listed
  {
    if |listed| == 2 && !always then
      if back.Some? then Repaired(Some(HeadRow(ws)), Some(Row.SessionRow(back.value)), None)
      else Repaired(Some(HeadRow(ws)), None, Some(ToWorkspace(ws)))
    else if back.Some? then Repaired(Some(Row.SessionRow(back.value)), None, None)
    else
      var next := if spawned.Some? then spawned else NeighbourOf(listed, id);
      if next.Some? then Repaired(Some(Row.SessionRow(next.value)), None, Some(ToSession(next.value)))
      else Repaired(Some(HeadRow(ws)), None, None)
  }

  lemma ClosingAShellTab(c: TabClose)
    requires c.Valid() && OnDisplay(c.shown.ViewOf(), c.Home()) && OnlyShells(c.shown, c.Home())
    ensures var listed := ListedIds(c.shown.sessions, c.Home());
            && c.Tab().id in listed
            && RepairedAfter(c) == AmongShells(listed, c.Tab().id, c.shown.always, c.Home(), c.Back(), c.Opened())
  {
    var s, idx := c.shown, c.idx;
    CloseTakesTheListNeighbour(s.sessions, idx);
    LoneAmongShells(s, idx);
    if c.Back().None? {
      if |ListedIds(s.sessions, c.Home())| > 1 {
        SomeAreLeft(c);
        ShellsAgree(s.sessions, RanksOf(s.listing), c.Home());
        NoPaneListed(s.sessions, s.listing, c.Home(), s.always);
        LandsOnDisplayed(s, idx);
      } else {
        OneShellIsListed(s, idx);
        AloneHasNoNeighbour(s, idx);
        NothingIsUnclaimed(s, idx);
        assert |ListedIds(s.sessions, c.Home())| == 1;
      }
    }
  }

  lemma SomeAreLeft(c: TabClose)
    requires c.Valid() && |ListedIds(c.shown.sessions, c.Home())| > 1
    ensures Live(c.Left(), c.Home()) && c.Opened().None?
  {
    OneFewerIsLeft(c.shown.sessions, c.idx);
    if !Live(c.Left(), c.Home()) {
      NothingShown(c.Left(), c.Home());
    }
  }
}
