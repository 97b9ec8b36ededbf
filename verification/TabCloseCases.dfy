/** Closes to look at: panes that part the cursor and the terminal, a tasks tab
    that returns to a shell, and lone tabs that a fresh shell takes over. */
module TabCloseCases {
  import opened AppState
  import opened ClosedTabs
  import opened CloseLandings
  import opened CloseSessions
  import opened CursorLandings
  import opened DisplayOrder
  import opened FollowedCloses
  import opened Neighbours
  import opened Options
  import opened PaneListings
  import opened Seqs
  import opened Sessions
  import opened SidebarFocus
  import opened Snapshots
  import opened StableSort

  // ---- Panes can part cursor and terminal ----

  /** Home, with a session attached to a listed pane and then two shells. */
  ghost predicate PaneAndShells(s: Sidebar, a: Session, b: Session, c: Session) {
    && s.sessions == [a, b, c] && a.workspace.None? && b.workspace.None? && c.workspace.None?
    && a.pane.Some? && b.pane.None? && c.pane.None? && a.id != b.id && b.id != c.id && a.id != c.id
    && s.listing == [Listed(a.pane.value, Some(None))] && !s.always
  }

  lemma PicksOf(a: Session, b: Session, c: Session)
    requires a.pane.Some? && b.pane.None? && c.pane.None?
    ensures Filter([a, b, c], IsShell()) == [b, c] && Filter([a, b, c], HasPane()) == [a]
  {
    assert [a, b, c][1..] == [b, c] && [b, c][1..] == [c] && [c][1..] == [];
    FilterOne(c, IsShell());
    FilterOne(c, HasPane());
  }

  lemma SortOfOne<T>(x: T, le: (T, T) -> bool)
    ensures Sort([x], le) == [x]
  {
    assert [x][1..] == [];
  }

  lemma RowsOfThree(a: Session, b: Session, c: Session, listing: Listing)
    requires a.pane.Some? && b.pane.None? && c.pane.None?
    requires a.workspace.None? && b.workspace.None? && c.workspace.None? && Unclaimed(listing, [a, b, c], None) == []
    ensures RowsFor([a, b, c], listing, None, false) == [Entry.SessionRow(b.id), Entry.SessionRow(c.id), Entry.SessionRow(a.id)]
  {
    var ranks := RanksOf(listing);
    FilterAll([a, b, c], InWorkspace(None));
    PicksOf(a, b, c);
    var m := Attached(ranks)(a);
    MapIs([a], Attached(ranks), [m]);
    MapIs([b, c], Id(), [b.id, c.id]);
    MapIs([b.id, c.id], AsRow(), [Entry.SessionRow(b.id), Entry.SessionRow(c.id)]);
    SortOfOne(m, ByRank());
    MapIs([m], EntryOf(), [Entry.SessionRow(a.id)]);
    assert ManagedRows([a, b, c], ranks, []) == [m];
  }

  /** The shells come first. */
  lemma PaneAndShellsRows(s: Sidebar, a: Session, b: Session, c: Session)
    requires PaneAndShells(s, a, b, c)
    ensures s.Valid() && s.Rows(None) == [Entry.SessionRow(b.id), Entry.SessionRow(c.id), Entry.SessionRow(a.id)]
  {
    assert Claims(s.sessions, a.pane.value) by {
      assert s.sessions[0].pane == a.pane;
    }
    FilterNone(s.listing, Offered(s.sessions, None));
    RowsOfThree(a, b, c, s.listing);
  }

  /** A shell with two others left lands on its neighbour in the rows. */
  lemma LandsBeside(s: Sidebar, idx: nat, k: nat)
    requires idx < |s.sessions| && s.ShowsTab(idx) && s.sessions[idx].pane.None?
    requires |SessionsOf(RemoveAt(s.sessions, idx), s.sessions[idx].workspace)| > 1
    requires var rows := s.Rows(s.sessions[idx].workspace); Distinct(rows) && k < |rows| && rows[k] == Entry.SessionRow(s.sessions[idx].id)
    ensures LandingEntry(s, idx) == Neighbour(s.Rows(s.sessions[idx].workspace), k)
  {
    NeighbourAt(s.Rows(s.sessions[idx].workspace), k);
  }

  lemma SiblingBefore(x: Session, y: Session, ws: Workspace)
    requires y.workspace == ws
    ensures SiblingAfter([x, y], ws, 2, true) == Some(y.id)
  {
  }

  lemma LastShellLands(s: Sidebar, a: Session, b: Session, c: Session)
    requires s.sessions == [a, b, c] && a.workspace.None? && b.workspace.None? && c.workspace.None? && c.pane.None?
    requires s.Rows(None) == [Entry.SessionRow(b.id), Entry.SessionRow(c.id), Entry.SessionRow(a.id)] && Distinct(s.Rows(None))
    ensures s.ShowsTab(2) && LandingEntry(s, 2) == Some(Entry.SessionRow(a.id))
  {
    assert RemoveAt(s.sessions, 2) == [a, b];
    FilterAll([a, b], InWorkspace(None));
    assert s.Rows(None)[1] == Entry.SessionRow(c.id);
    LandsBeside(s, 2, 1);
  }

  /** Of the last shell the other one, before it in the list, is the sibling, and
      the attached session, below it on display, takes the cursor. */
  lemma ClosingTheLastShell(s: Sidebar, a: Session, b: Session, c: Session)
    requires PaneAndShells(s, a, b, c)
    ensures s.ShowsTab(2) && SiblingAfter(RemoveAt(s.sessions, 2), None, 2, true) == Some(b.id)
    ensures LandingEntry(s, 2) == Some(Entry.SessionRow(a.id))
  {
    PaneAndShellsRows(s, a, b, c);
    LastShellLands(s, a, b, c);
    assert RemoveAt(s.sessions, 2) == [a, b];
    SiblingBefore(a, b, None);
  }

  /** Of the attached session the first shell is the sibling, and the row of its
      own pane takes the cursor. */
  lemma ClosingTheAttached(s: Sidebar, a: Session, b: Session, c: Session)
    requires PaneAndShells(s, a, b, c)
    ensures s.ShowsTab(0) && SiblingAfter(RemoveAt(s.sessions, 0), None, 0, true) == Some(b.id)
    ensures LandingEntry(s, 0) == Some(Entry.PaneRow(a.pane.value))
  {
    PaneAndShellsRows(s, a, b, c);
    assert RemoveAt(s.sessions, 0) == [b, c];
    assert s.Rows(None)[2] == Entry.SessionRow(a.id);
  }

  /** A close from home that returns nowhere and leaves a sibling. */
  lemma LandsAt(c: TabClose, e: Entry, sibling: nat)
    requires c.Valid() && c.Home().None? && c.Back().None?
    requires LandingEntry(c.shown, c.idx) == Some(e) && SiblingAfter(c.Left(), None, c.idx, true) == Some(sibling)
    ensures RepairedAfter(c) == Repaired(Some(RowOf(e)), None, if e.SessionRow? then Some(ToSession(e.id)) else None)
    ensures Successor(c) == Some(sibling) && (Agree(c) <==> e == Entry.SessionRow(sibling))
  {
    SiblingIsHeld(c.Left(), None, c.idx, true);
    LiveMeansHeld(c.Left(), None);
    assert c.Opened().None?;
    assert Landing(c) == Some(e);
  }

  /** What a close sends the cursor to and offers there, and where the entry goes. */
  ghost predicate Parts(c: TabClose, cursor: Row, offer: Option<FollowTarget>, entry: nat)
    requires c.idx < |c.shown.sessions| && c.shown.ShowsTab(c.idx)
  {
    RepairedAfter(c) == Repaired(Some(cursor), None, offer) && Successor(c) == Some(entry) && !Agree(c)
  }

  /** With session 1 attached to the pane x, and 2 and 3 shells, closing 3 sends the
      cursor to 1 and the active entry to 2, and closing 1 sends the cursor to x,
      where nothing is offered, and the entry to 2, unless they return elsewhere. */
  lemma PanesPartCursorAndTerminal() returns (s: Sidebar)
    ensures s == Sidebar([], [Session(None, 1, Some("x"), Shell), Session(None, 2, None, Shell), Session(None, 3, None, Shell)],
                         [Listed("x", Some(None))], false, None)
    ensures s.Valid() && PlainClose(s, 2).Valid() && PlainClose(s, 0).Valid()
    ensures forall c: TabClose :: c.Valid() && c.shown == s && c.idx == 2 && c.Back().None? ==>
              Parts(c, Row.SessionRow(1), Some(ToSession(1)), 2)
    ensures forall c: TabClose :: c.Valid() && c.shown == s && c.idx == 0 && c.Back().None? ==>
              Parts(c, Row.PaneRow("x"), None, 2)
  {
    var x, y, z := Session(None, 1, Some("x"), Shell), Session(None, 2, None, Shell), Session(None, 3, None, Shell);
    s := Sidebar([], [x, y, z], [Listed("x", Some(None))], false, None);
    PaneAndShellsRows(s, x, y, z);
    ClosingTheLastShell(s, x, y, z);
    ClosingTheAttached(s, x, y, z);
    PlainCloseIsValid(s, 2);
    PlainCloseIsValid(s, 0);
    forall c: TabClose | c.Valid() && c.shown == s && c.idx == 2 && c.Back().None?
      ensures Parts(c, Row.SessionRow(1), Some(ToSession(1)), 2)
    {
      LandsAt(c, Entry.SessionRow(1), 2);
    }
    forall c: TabClose | c.Valid() && c.shown == s && c.idx == 0 && c.Back().None?
      ensures Parts(c, Row.PaneRow("x"), None, 2)
    {
      LandsAt(c, Entry.PaneRow("x"), 2);
    }
  }

  // ---- A tab that returns ----

  /** Home with three shells and the tasks tab, which is active and took over from
      the second. */
  function TasksOverShells(policy: Policy, w: World): TabClose {
    var sessions := [Session(None, 1, None, Shell), Session(None, 2, None, Shell),
                     Session(None, 3, None, Shell), Session(None, 4, None, Tasks)];
    TabClose(Sidebar([], sessions, [], false, None), 3, State(sessions, map[None := 4], map[4 := 2], None), User,
             Config(policy, true, true), w)
  }

  /** Closing the tasks tab with the cursor on it leaves cursor and terminal on the
      shell it took over from, while the shell before it would be the landing. */
  lemma TasksTabReturns(policy: Policy, w: World)
    requires forall ws :: w.spawns(ws).Some? ==> w.spawns(ws).value > 4
    ensures var c := TasksOverShells(policy, w);
            && c.Valid() && c.Back() == Some(2) && LandingEntry(c.shown, 3) == Some(Entry.SessionRow(3))
            && RepairedAfter(c) == Repaired(Some(Row.SessionRow(2)), None, None)
            && Active(Settled(c.app, [4], None, User, c.cfg, w, None), None) == Some(2)
  {
    var c := TasksOverShells(policy, w);
    TasksCloseIsValid(c);
    ReturnsAmongShells(c, 2, 3);
  }

  /** A tab of a home with more than two shells that returns to one of them. */
  lemma ReturnsAmongShells(c: TabClose, back: nat, beside: nat)
    requires c.Valid() && c.Home().None? && OnlyShells(c.shown, None) && |ListedIds(c.shown.sessions, None)| > 2
    requires c.Back() == Some(back) && c.cfg.follows && c.Tab().id in ListedIds(c.shown.sessions, None)
    requires NeighbourOf(ListedIds(c.shown.sessions, None), c.Tab().id) == Some(beside)
    ensures LandingEntry(c.shown, c.idx) == Some(Entry.SessionRow(beside))
    ensures RepairedAfter(c) == Repaired(Some(Row.SessionRow(back)), None, None)
    ensures Active(Settled(c.app, [c.Tab().id], None, c.reason, c.cfg, c.world, None), None) == Some(back)
  {
    ClosingAShellTab(c);
    TerminalFollowsTheCursor(c);
    ShellsLandBeside(c);
  }

  lemma FourShells(s: seq<Session>)
    requires |s| == 4 && forall i :: 0 <= i < 4 ==> s[i].workspace.None?
    ensures SessionsOf(s, None) == s && |ListedIds(s, None)| == 4
    ensures forall i :: 0 <= i < 4 ==> ListedIds(s, None)[i] == s[i].id
  {
    FilterAll(s, InWorkspace(None));
  }

  lemma TasksCloseIsValid(c: TabClose)
    requires |c.shown.sessions| == 4 && c.idx == 3 && c.app.sessions == c.shown.sessions && c.shown.listing == []
    requires forall i :: 0 <= i < 4 ==> c.shown.sessions[i].workspace.None? && c.shown.sessions[i].id == i + 1 && c.shown.sessions[i].pane.None?
    requires c.app.active == map[None := 4] && c.app.returnsTo == map[4 := 2] && c.cfg.goesBack && c.reason.User?
    requires forall ws :: c.world.spawns(ws).Some? ==> c.world.spawns(ws).value > 4
    ensures c.Valid() && c.Back() == Some(2) && OnlyShells(c.shown, None)
    ensures var listed := ListedIds(c.shown.sessions, None);
            |listed| == 4 && 4 in listed && NeighbourOf(listed, 4) == Some(3)
  {
    FourthIsLast(c.shown.sessions);
    AgreesOnOne(c.shown, 3);
    TasksStateIsConsistent(c.app);
    HomeOfShells(c.shown);
  }

  lemma HomeOfShells(s: Sidebar)
    requires s.listing == [] && forall i :: 0 <= i < |s.sessions| ==> s.sessions[i].pane.None?
    ensures OnlyShells(s, None)
  {
    forall x | x in s.sessions
      ensures x.pane.None?
    {
      var i := IndexIn(s.sessions, x);
    }
  }

  lemma FourthIsLast(s: seq<Session>)
    requires |s| == 4 && forall i :: 0 <= i < 4 ==> s[i].workspace.None? && s[i].id == i + 1
    ensures var listed := ListedIds(s, None);
            |listed| == 4 && 4 in listed && NeighbourOf(listed, 4) == Some(3)
    ensures forall ws, id :: Holds(s, ws, id) ==> id <= 4
  {
    FourShells(s);
    NeighbourAt(ListedIds(s, None), 3);
  }

  lemma TasksStateIsConsistent(s: State)
    requires |s.sessions| == 4 && forall i :: 0 <= i < 4 ==> s.sessions[i].workspace.None? && s.sessions[i].id == i + 1
    requires s.active == map[None := 4] && s.returnsTo == map[4 := 2]
    ensures Consistent(s) && ReturnTarget(s, 4, true) == Some(2)
  {
    assert s.sessions[3].id == 4 && s.sessions[1].id == 2;
    assert Holds(s.sessions, None, 4) && Holds(s.sessions, None, 2);
    assert Position(s.sessions, 4) == Some(3);
  }

  lemma ShellsLandBeside(c: TabClose)
    requires c.Valid() && c.Home().None? && OnlyShells(c.shown, None) && |ListedIds(c.shown.sessions, None)| > 2
    ensures var listed := ListedIds(c.shown.sessions, None);
            c.Tab().id in listed && NeighbourOf(listed, c.Tab().id).Some?
            && LandingEntry(c.shown, c.idx) == Some(Entry.SessionRow(NeighbourOf(listed, c.Tab().id).value))
  {
    CloseTakesTheListNeighbour(c.shown.sessions, c.idx);
    LoneAmongShells(c.shown, c.idx);
    ShellsAgree(c.shown.sessions, RanksOf(c.shown.listing), None);
    NoPaneListed(c.shown.sessions, c.shown.listing, None, c.shown.always);
    LandsOnDisplayed(c.shown, c.idx);
  }

  // ---- Lone tabs ----

  /** Home with one tab, attached to a listed pane or not, under the respawn policy. */
  ghost predicate LoneTab(c: TabClose, x: Session, spawned: nat) {
    && c.shown.projects == [] && c.shown.sessions == [x] && c.idx == 0 && x.workspace.None? && c.reason.User?
    && c.shown.listing == (if x.pane.Some? then [Listed(x.pane.value, Some(None))] else [])
    && (x.pane.None? ==> c.shown.always)
    && c.app == State([x], map[None := x.id], map[], None) && c.cfg.policy.Respawn?
    && c.world.spawns(None) == Some(spawned) && forall ws :: c.world.spawns(ws) != Some(x.id)
  }

  lemma LoneTabRows(c: TabClose, x: Session, spawned: nat)
    requires LoneTab(c, x, spawned)
    ensures c.shown.Valid() && c.shown.Rows(None) == [Entry.SessionRow(x.id)]
  {
    ClaimsItsPane(x);
    OneTabRows(x, c.shown.listing, c.shown.always);
  }

  lemma OneTabRows(x: Session, listing: Listing, always: bool)
    requires x.workspace.None? && WellListed(listing) && (x.pane.None? ==> always)
    requires forall l :: l in listing ==> Claims([x], l.pane)
    ensures RowsFor([x], listing, None, always) == [Entry.SessionRow(x.id)]
  {
    var rows, e := RowsFor([x], listing, None, always), Entry.SessionRow(x.id);
    RowsDifferFromEachOther([x], listing, None, always);
    forall other | other in rows
      ensures other == e
    {
      OnlyTheTabsRow(x, listing, always, other);
    }
    HasTheTabsRow(x, listing, always);
    OnlyRow(rows, e);
    NeighbourAt(rows, 0);
    assert rows == [e];
  }

  lemma OnlyTheTabsRow(x: Session, listing: Listing, always: bool, e: Entry)
    requires e in RowsFor([x], listing, None, always) && forall l :: l in listing ==> Claims([x], l.pane)
    ensures e == Entry.SessionRow(x.id)
  {
    RowsInParts([x], listing, None, always);
    ShellRowsAre([x], None);
    ManagedEntriesAre([x], listing, None);
    assert e.SessionRow? ==> HasRow([x], None, e.id, true) || HasRow([x], None, e.id, false);
  }

  lemma HasTheTabsRow(x: Session, listing: Listing, always: bool)
    requires x.workspace.None? && (x.pane.None? ==> always)
    ensures Entry.SessionRow(x.id) in RowsFor([x], listing, None, always)
  {
    RowsInParts([x], listing, None, always);
    ShellRowsAre([x], None);
    ManagedEntriesAre([x], listing, None);
    assert x in [x];
    assert HasRow([x], None, x.id, x.pane.Some?);
    assert x.pane.Some? ==> IsManaged([x], listing, None, Entry.SessionRow(x.id));
    assert x.pane.None? ==> Entry.SessionRow(x.id) in ShellRows([x], None);
  }

  lemma ClaimsItsPane(x: Session)
    ensures x.pane.Some? ==> Claims([x], x.pane.value)
  {
    assert [x][0] == x;
  }

  /** The spawned shell takes the cursor and the terminal, also over the row of the
      closed tab's own pane. */
  lemma LoneTabIsTakenOver(c: TabClose, x: Session, spawned: nat)
    requires LoneTab(c, x, spawned)
    ensures c.Valid() && c.Opened() == Some(spawned)
    ensures RepairedAfter(c) == Repaired(Some(Row.SessionRow(spawned)), None, Some(ToSession(spawned)))
    ensures x.pane.Some? ==> LandingEntry(c.shown, 0) == Some(Entry.PaneRow(x.pane.value))
  {
    LoneTabRows(c, x, spawned);
    LoneCloseIsValid(c, x, spawned);
    LoneLandingIsTheShell(c, x, spawned);
    if x.pane.Some? {
      LonePaneReturns(c, x);
    }
  }

  lemma LoneLandingIsTheShell(c: TabClose, x: Session, spawned: nat)
    requires LoneTab(c, x, spawned) && c.Valid() && c.Back().None? && c.Left() == [] && c.Opened() == Some(spawned)
    requires c.shown.Rows(None) == [Entry.SessionRow(x.id)]
    ensures Landing(c) == Some(Entry.SessionRow(spawned))
  {
    assert c.shown.Rows(None)[0] == Entry.SessionRow(x.id);
    UnclaimedAre([], c.shown.listing, None);
    assert x.pane.Some? ==> Listed(x.pane.value, Some(None)) in c.shown.listing;
  }

  lemma LonePaneReturns(c: TabClose, x: Session)
    requires c.idx == 0 && c.shown.sessions == [x] && x.pane.Some? && x.workspace.None? && c.Left() == []
    requires c.shown.listing == [Listed(x.pane.value, Some(None))] && c.shown.ShowsTab(0)
    ensures LandingEntry(c.shown, 0) == Some(Entry.PaneRow(x.pane.value))
  {
    assert c.shown.listing[0] in c.shown.listing;
  }

  lemma LoneCloseIsValid(c: TabClose, x: Session, spawned: nat)
    requires LoneTab(c, x, spawned) && c.shown.Valid() && c.shown.Rows(None) == [Entry.SessionRow(x.id)]
    ensures c.Valid() && c.Back().None? && c.Left() == [] && c.Opened() == Some(spawned)
  {
    assert [x][0] == x && Holds([x], None, x.id);
    assert RemoveAt([x], 0) == [];
  }
}
