/** Which tabs have a tab to return to, after any run of opening, activating,
    moving and closing them. */
module ReturnHistory {
  import opened AppState
  import opened CloseLandings
  import opened Options
  import opened Seqs
  import opened Sessions
  import opened SidebarFocus

  datatype Event =
    | Open(tab: Session)
    | Activate(workspace: Workspace, id: nat)
    | Move(at: nat, target: Workspace)
    | Close(id: nat, follows: bool, goesBack: bool)

  /** Tabs open under ids of their own, and open tabs are activated where they are. */
  ghost predicate Allowed(s: State, e: Event) {
    match e
    case Open(tab) => forall i :: 0 <= i < |s.sessions| ==> s.sessions[i].id != tab.id
    case Activate(ws, id) => Holds(s.sessions, ws, id)
    case Move(at, _) => at < |s.sessions|
    case Close(_, _, _) => true
  }

  ghost function After(s: State, e: Event): State
    requires Allowed(s, e)
  {
    match e
    case Open(tab) => s.(sessions := s.sessions + [tab])
    case Activate(ws, id) => SetActive(s, ws, id)
    case Move(at, target) => MovedTo(s, at, target)
    case Close(id, follows, goesBack) => RemoveOne(s, id, follows, goesBack)
  }

  ghost predicate AllAllowed(s: State, events: seq<Event>)
    decreases |events|, 0
  {
    events == [] ||
      (var last := |events| - 1;
       AllAllowed(s, events[..last]) && Allowed(Run(s, events[..last]), events[last]))
  }

  ghost function Run(s: State, events: seq<Event>): State
    requires AllAllowed(s, events)
    decreases |events|, 1
  {
    if events == [] then s
    else
      var last := |events| - 1;
      After(Run(s, events[..last]), events[last])
  }

  lemma {:induction false} AllowedBefore(s: State, events: seq<Event>, k: nat)
    requires AllAllowed(s, events) && k <= |events|
    ensures AllAllowed(s, events[..k])
  {
    if k < |events| {
      AllowedBefore(s, events[..|events| - 1], k);
      assert events[..|events| - 1][..k] == events[..k];
    } else {
      assert events[..k] == events;
    }
  }

  /** At step k the tab is brought up over another one of its workspace. */
  ghost predicate TakesOverAt(s: State, events: seq<Event>, k: nat, id: nat, from: nat)
    requires AllAllowed(s, events) && k < |events|
  {
    AllowedBefore(s, events, k);
    && events[k].Activate? && events[k].id == id && from != id
    && Active(Run(s, events[..k]), events[k].workspace) == Some(from)
  }

  /** The tab was closed at step k, or brought up over another one. */
  ghost predicate Ends(s: State, events: seq<Event>, k: nat, id: nat)
    requires AllAllowed(s, events) && k < |events|
  {
    (events[k].Close? && events[k].id == id) || exists other :: TakesOverAt(s, events, k, id, other)
  }

  /** The tab was last brought up over `from`, and has not been closed since. */
  ghost predicate CameUpOver(s: State, events: seq<Event>, id: nat, from: nat)
    requires AllAllowed(s, events)
  {
    exists k :: 0 <= k < |events| && TakesOverAt(s, events, k, id, from)
      && forall j :: k < j < |events| ==> !Ends(s, events, j, id)
  }

  /** The step before does not see the last event. */
  lemma StepsAgree(s: State, events: seq<Event>, k: nat, id: nat, from: nat)
    requires events != [] && AllAllowed(s, events) && k < |events| - 1
    ensures TakesOverAt(s, events, k, id, from) <==> TakesOverAt(s, events[..|events| - 1], k, id, from)
    ensures Ends(s, events, k, id) <==> Ends(s, events[..|events| - 1], k, id)
  {
    var front := events[..|events| - 1];
    assert front[..k] == events[..k] && front[k] == events[k];
    forall other: nat
      ensures TakesOverAt(s, events, k, id, other) <==> TakesOverAt(s, front, k, id, other)
    {
    }
  }

  lemma CameUpOneMore(s: State, events: seq<Event>, id: nat, from: nat)
    requires events != [] && AllAllowed(s, events)
    ensures var last, front := |events| - 1, events[..|events| - 1];
            CameUpOver(s, events, id, from) <==>
              TakesOverAt(s, events, last, id, from) || (CameUpOver(s, front, id, from) && !Ends(s, events, last, id))
  {
    var last, front := |events| - 1, events[..|events| - 1];
    forall k: nat | k < last
      ensures TakesOverAt(s, events, k, id, from) <==> TakesOverAt(s, front, k, id, from)
      ensures Ends(s, events, k, id) <==> Ends(s, front, k, id)
    {
      StepsAgree(s, events, k, id, from);
    }
    if CameUpOver(s, events, id, from) {
      var k :| 0 <= k < |events| && TakesOverAt(s, events, k, id, from) && forall j :: k < j < |events| ==> !Ends(s, events, j, id);
    }
    if CameUpOver(s, front, id, from) && !Ends(s, events, last, id) {
      var k :| 0 <= k < |front| && TakesOverAt(s, front, k, id, from) && forall j :: k < j < |front| ==> !Ends(s, front, j, id);
      assert TakesOverAt(s, events, k, id, from);
    }
  }

  // ---- Tabs and their kinds ----

  ghost predicate IsOpen(sessions: seq<Session>, id: nat) {
    exists i :: 0 <= i < |sessions| && sessions[i].id == id
  }

  /** An open scratchpad or tasks tab. */
  ghost predicate IsTransient(sessions: seq<Session>, id: nat) {
    exists i :: 0 <= i < |sessions| && sessions[i].id == id && sessions[i].kind in {Scratchpad, Tasks}
  }

  /** One event opens, closes or changes the kind of no other tab. */
  lemma TabsAfter(s: State, e: Event, id: nat)
    requires DistinctIds(s.sessions) && Allowed(s, e)
    ensures DistinctIds(After(s, e).sessions)
    ensures e.Close? && e.id == id ==> !IsOpen(After(s, e).sessions, id)
    ensures !(e.Close? && e.id == id) && !(e.Open? && e.tab.id == id) ==>
              && (IsOpen(After(s, e).sessions, id) <==> IsOpen(s.sessions, id))
              && (IsTransient(After(s, e).sessions, id) <==> IsTransient(s.sessions, id))
  {
    match e
    case Open(tab) =>
      if tab.id != id {
        AppendedTabs(s.sessions, tab, id);
      }
    case Activate(ws, _) =>
    case Move(at, target) => SameTabs(s.sessions, MovedTo(s, at, target).sessions, id);
    case Close(closed, follows, goesBack) =>
      match Position(s.sessions, closed)
      case None =>
      case Some(idx) => RemainingTabs(s.sessions, idx, id);
  }

  lemma AppendedTabs(sessions: seq<Session>, tab: Session, id: nat)
    requires id != tab.id
    ensures IsOpen(sessions + [tab], id) <==> IsOpen(sessions, id)
    ensures IsTransient(sessions + [tab], id) <==> IsTransient(sessions, id)
  {
    var all := sessions + [tab];
    if IsOpen(sessions, id) {
      var i :| 0 <= i < |sessions| && sessions[i].id == id;
      assert all[i].id == id;
    }
    if IsTransient(sessions, id) {
      var i :| 0 <= i < |sessions| && sessions[i].id == id && sessions[i].kind in {Scratchpad, Tasks};
      assert all[i] == sessions[i];
    }
  }

  lemma SameTabs(a: seq<Session>, b: seq<Session>, id: nat)
    requires |a| == |b| && forall i :: 0 <= i < |a| ==> a[i].id == b[i].id && a[i].kind == b[i].kind
    ensures IsOpen(a, id) <==> IsOpen(b, id)
    ensures IsTransient(a, id) <==> IsTransient(b, id)
  {
  }

  lemma RemainingTabs(sessions: seq<Session>, idx: nat, id: nat)
    requires DistinctIds(sessions) && idx < |sessions|
    ensures DistinctIds(RemoveAt(sessions, idx)) && !IsOpen(RemoveAt(sessions, idx), sessions[idx].id)
    ensures id != sessions[idx].id ==>
              && (IsOpen(RemoveAt(sessions, idx), id) <==> IsOpen(sessions, id))
              && (IsTransient(RemoveAt(sessions, idx), id) <==> IsTransient(sessions, id))
  {
    var left := RemoveAt(sessions, idx);
    forall i | 0 <= i < |left|
      ensures left[i] == sessions[if i < idx then i else i + 1]
    {}
    forall i | 0 <= i < |sessions| && i != idx
      ensures sessions[i] == left[if i < idx then i else i - 1]
    {}
  }

  // ---- The tab to return to ----

  /** What a tab returns to: only a scratchpad or tasks tab does, and to the tab it
      was last brought up over. */
  ghost predicate Recorded(s: State, events: seq<Event>, id: nat, from: nat)
    requires AllAllowed(s, events)
  {
    IsTransient(Run(s, events).sessions, id) && CameUpOver(s, events, id, from)
  }

  ghost predicate HasEntry(s: State, id: nat, from: nat) {
    id in s.returnsTo && s.returnsTo[id] == from
  }

  /** What one event does to a tab's entry. */
  lemma EntryAfter(s: State, e: Event, id: nat, from: nat)
    requires DistinctIds(s.sessions) && Allowed(s, e)
    ensures var over := e.Activate? && e.id == id && Active(s, e.workspace).Some? && Active(s, e.workspace) != Some(id);
            HasEntry(After(s, e), id, from)
            <==> if over && IsTransient(s.sessions, id) then Active(s, e.workspace) == Some(from)
                 else HasEntry(s, id, from) && !(e.Close? && e.id == id && IsOpen(s.sessions, id))
  {
    if e.Close? {
      assert Position(s.sessions, e.id).Some? <==> IsOpen(s.sessions, e.id);
    }
    assert TakesOver(s.sessions, id) <==> IsTransient(s.sessions, id);
  }

  lemma TransientIsOpen(sessions: seq<Session>, id: nat)
    ensures IsTransient(sessions, id) ==> IsOpen(sessions, id)
  {
  }

  lemma {:induction false} EntriesAreHistory(s: State, events: seq<Event>, id: nat, from: nat)
    requires DistinctIds(s.sessions) && s.returnsTo == map[] && AllAllowed(s, events)
    ensures DistinctIds(Run(s, events).sessions)
    ensures HasEntry(Run(s, events), id, from) <==> Recorded(s, events, id, from)
    ensures CameUpOver(s, events, id, from) ==> IsOpen(Run(s, events).sessions, id)
    decreases |events|
  {
    if events != [] {
      EntriesAreHistory(s, events[..|events| - 1], id, from);
      OneEventMore(s, events, id, from);
    }
  }

  lemma OneEventMore(s: State, events: seq<Event>, id: nat, from: nat)
    requires events != [] && AllAllowed(s, events)
    requires var front := events[..|events| - 1];
             && DistinctIds(Run(s, front).sessions)
             && (HasEntry(Run(s, front), id, from) <==> Recorded(s, front, id, from))
             && (CameUpOver(s, front, id, from) ==> IsOpen(Run(s, front).sessions, id))
    ensures DistinctIds(Run(s, events).sessions)
    ensures HasEntry(Run(s, events), id, from) <==> Recorded(s, events, id, from)
    ensures CameUpOver(s, events, id, from) ==> IsOpen(Run(s, events).sessions, id)
  {
    var last, front := |events| - 1, events[..|events| - 1];
    var before, e := Run(s, front), events[last];
    TabsAfter(before, e, id);
    EntryAfter(before, e, id, from);
    CameUpOneMore(s, events, id, from);
    LastStep(s, events, id, from);
    TransientIsOpen(before.sessions, id);
  }

  /** What the last event is to the tab. */
  lemma LastStep(s: State, events: seq<Event>, id: nat, from: nat)
    requires events != [] && AllAllowed(s, events)
    ensures var last, before := |events| - 1, Run(s, events[..|events| - 1]);
            var e := events[last];
            var over := e.Activate? && e.id == id && Active(before, e.workspace).Some? && Active(before, e.workspace) != Some(id);
            && (TakesOverAt(s, events, last, id, from) <==> over && Active(before, e.workspace) == Some(from))
            && (Ends(s, events, last, id) <==> over || (e.Close? && e.id == id))
            && (over ==> IsOpen(before.sessions, id))
            && Run(s, events) == After(before, e)
  {
    var last, before := |events| - 1, Run(s, events[..|events| - 1]);
    var e := events[last];
    if e.Activate? && e.id == id && Active(before, e.workspace).Some? && Active(before, e.workspace) != Some(id) {
      assert TakesOverAt(s, events, last, id, Active(before, e.workspace).value);
    }
  }

  // ---- Where closing an active tab leads ----

  /** Closing the tab has one to go back to: it is a scratchpad or a tasks tab, and
      the one it last came up over is still open beside it. */
  ghost predicate GoesBackTo(s: State, events: seq<Event>, ws: Workspace, id: nat, from: nat)
    requires AllAllowed(s, events)
  {
    Recorded(s, events, id, from) && Holds(Run(s, events).sessions, ws, from)
  }

  /** After any run, closing a workspace's active tab goes back to the tab it came
      up over when going back is on and there is one, and otherwise to the row the
      sibling rule names. */
  lemma ClosingGoesBackExactlyWhen(
    s: State, events: seq<Event>, id: nat, idx: nat, follows: bool, goesBack: bool, project: Option<string>)
    requires DistinctIds(s.sessions) && s.returnsTo == map[] && AllAllowed(s, events)
    requires Position(Run(s, events).sessions, id) == Some(idx)
    requires Active(Run(s, events), Run(s, events).sessions[idx].workspace) == Some(id)
    ensures var t := Run(s, events);
            var ws, after := t.sessions[idx].workspace, RemoveOne(t, id, follows, goesBack);
            && (forall from: nat :: goesBack && GoesBackTo(s, events, ws, id, from) ==> Active(after, ws) == Some(from))
            && ((!goesBack || forall from: nat :: !GoesBackTo(s, events, ws, id, from)) ==>
                  Active(after, ws)
                  == if !follows then HeadId(after.sessions, ws)
                     else LandingId(Entries(Filter(t.sessions, InWorkspace(ws)), project), id))
  {
    var t := Run(s, events);
    var ws := t.sessions[idx].workspace;
    EntriesAreHistory(s, events, id, id);
    forall from: nat
      ensures GoesBackTo(s, events, ws, id, from) <==> ReturnTarget(t, id, true) == Some(from)
    {
      EntriesAreHistory(s, events, id, from);
      ReturnsToTheEntry(t, id, idx, from);
    }
    ClosedHandsOver(t, id, idx, follows, goesBack, project);
    if goesBack && ReturnTarget(t, id, true).Some? {
      assert GoesBackTo(s, events, ws, id, ReturnTarget(t, id, true).value);
    }
  }

  lemma ReturnsToTheEntry(t: State, id: nat, idx: nat, from: nat)
    requires Position(t.sessions, id) == Some(idx) && Active(t, t.sessions[idx].workspace) == Some(id)
    ensures ReturnTarget(t, id, true) == Some(from)
            <==> HasEntry(t, id, from) && Holds(t.sessions, t.sessions[idx].workspace, from)
  {}

  lemma ClosedHandsOver(t: State, id: nat, idx: nat, follows: bool, goesBack: bool, project: Option<string>)
    requires DistinctIds(t.sessions)
    requires Position(t.sessions, id) == Some(idx) && Active(t, t.sessions[idx].workspace) == Some(id)
    ensures var ws, after := t.sessions[idx].workspace, RemoveOne(t, id, follows, goesBack);
            var back := ReturnTarget(t, id, true);
            Active(after, ws)
            == if goesBack && back.Some? then back
               else if !follows then HeadId(after.sessions, ws)
               else LandingId(Entries(Filter(t.sessions, InWorkspace(ws)), project), id)
  {
    SiblingIsTheLanding(t.sessions, idx, follows, project);
  }

  /** A shell or a diff never goes back, whatever was active before it. */
  lemma ShellsNeverGoBack(
    s: State, events: seq<Event>, id: nat, idx: nat, follows: bool, goesBack: bool, project: Option<string>)
    requires DistinctIds(s.sessions) && s.returnsTo == map[] && AllAllowed(s, events)
    requires Position(Run(s, events).sessions, id) == Some(idx)
    requires Run(s, events).sessions[idx].kind !in {Scratchpad, Tasks}
    requires Active(Run(s, events), Run(s, events).sessions[idx].workspace) == Some(id)
    ensures var t := Run(s, events);
            var ws, after := t.sessions[idx].workspace, RemoveOne(t, id, follows, goesBack);
            Active(after, ws)
            == if !follows then HeadId(after.sessions, ws)
               else LandingId(Entries(Filter(t.sessions, InWorkspace(ws)), project), id)
  {
    EntriesAreHistory(s, events, id, id);
    OneKindPerTab(Run(s, events).sessions, id, idx);
    ClosingGoesBackExactlyWhen(s, events, id, idx, follows, goesBack, project);
    NothingToGoBackTo(s, events, Run(s, events).sessions[idx].workspace, id);
  }

  lemma OneKindPerTab(sessions: seq<Session>, id: nat, idx: nat)
    requires DistinctIds(sessions) && Position(sessions, id) == Some(idx)
    ensures IsTransient(sessions, id) <==> sessions[idx].kind in {Scratchpad, Tasks}
  {}

  lemma NothingToGoBackTo(s: State, events: seq<Event>, ws: Workspace, id: nat)
    requires AllAllowed(s, events) && !IsTransient(Run(s, events).sessions, id)
    ensures forall from: nat :: !GoesBackTo(s, events, ws, id, from)
  {}

  /** After any run, a close takes the sidebar's cursor along exactly when it is on
      the row of a tab being closed that goes back, and then to the tab gone back to;
      any other cursor stays. */
  lemma CursorGoesBackExactlyWhen(s: State, events: seq<Event>, cursor: Option<Row>, ids: seq<nat>, goesBack: bool)
    requires DistinctIds(s.sessions) && s.returnsTo == map[] && AllAllowed(s, events)
    ensures forall id: nat, from: nat ::
              cursor == Some(SessionRow(id)) && id in ids && goesBack && GoesBack(s, events, id, from) ==>
                PinnedCursor(Run(s, events), cursor, ids, goesBack) == Some(SessionRow(from))
    ensures (forall id: nat, from: nat ::
               !(cursor == Some(SessionRow(id)) && id in ids && goesBack && GoesBack(s, events, id, from))) ==>
              PinnedCursor(Run(s, events), cursor, ids, goesBack) == cursor
  {
    var t := Run(s, events);
    if cursor.Some? && cursor.value.SessionRow? {
      var id := cursor.value.id;
      forall from: nat
        ensures GoesBack(s, events, id, from) <==> ReturnTarget(t, id, true) == Some(from)
      {
        EntriesAreHistory(s, events, id, from);
        GoesBackToTheTarget(s, events, id, from);
      }
    }
  }

  /** The tab is its workspace's active one, and has one to go back to. */
  ghost predicate GoesBack(s: State, events: seq<Event>, id: nat, from: nat)
    requires AllAllowed(s, events)
  {
    var t := Run(s, events);
    var at := Position(t.sessions, id);
    at.Some? && Active(t, t.sessions[at.value].workspace) == Some(id)
    && GoesBackTo(s, events, t.sessions[at.value].workspace, id, from)
  }

  lemma GoesBackToTheTarget(s: State, events: seq<Event>, id: nat, from: nat)
    requires AllAllowed(s, events)
    requires HasEntry(Run(s, events), id, from) <==> Recorded(s, events, id, from)
    ensures GoesBack(s, events, id, from) <==> ReturnTarget(Run(s, events), id, true) == Some(from)
  {
    var t := Run(s, events);
    match Position(t.sessions, id)
    case None =>
    case Some(idx) =>
      if Active(t, t.sessions[idx].workspace) == Some(id) {
        ReturnsToTheEntry(t, id, idx, from);
      }
  }
}
