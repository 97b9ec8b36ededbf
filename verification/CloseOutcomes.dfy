/** What every close guarantees, under every policy. */
module CloseOutcomes {
  import opened AppState
  import opened CloseLandings
  import opened CloseSessions
  import opened DisplayOrder
  import opened Options
  import opened Seqs
  import opened SessionRing
  import opened Sessions
  import opened StableSort

  /** The ids of a close all belong to the workspace it names. */
  ghost predicate AllFrom(s: State, ids: seq<nat>, ws: Workspace) {
    forall v, id :: id in ids && Holds(s.sessions, v, id) ==> v == ws
  }

  lemma RemovalLeavesOthersLive(s: State, ids: seq<nat>, ws: Workspace, cfg: Config)
    requires Consistent(s) && AllFrom(s, ids, ws)
    ensures var left := RemoveEach(s, ids, cfg.follows, cfg.goesBack);
            Consistent(left) && forall v :: v != ws && Live(s.sessions, v) ==> Live(left.sessions, v)
  {
    var left := RemoveEach(s, ids, cfg.follows, cfg.goesBack);
    RemoveEachIsConsistent(s, ids, cfg.follows, cfg.goesBack);
    forall v | v != ws && Live(s.sessions, v)
      ensures Live(left.sessions, v)
    {
      LiveMeansHeld(s.sessions, v);
      var id :| Holds(s.sessions, v, id);
      assert Holds(left.sessions, v, id);
      LiveMeansHeld(left.sessions, v);
    }
  }

  /** A verdict that moves the view names something that outlived the removal. */
  lemma VerdictIsSound(s: State, ids: seq<nat>, ws: Workspace, reason: Reason, cfg: Config, w: World)
    requires Consistent(s)
    ensures var left := RemoveEach(s, ids, cfg.follows, cfg.goesBack);
            var verdict := VerdictOf(s, left.sessions, ids, ws, reason, cfg, w);
            verdict.Stay? || Sound(left, verdict)
  {
    var left := RemoveEach(s, ids, cfg.follows, cfg.goesBack);
    var verdict := VerdictOf(s, left.sessions, ids, ws, reason, cfg, w);
    if verdict.ActivateSession? {
      LandingIsLeft(s, ids, cfg, w, if cfg.policy.RingProject? then w.project else None);
      PositionIsHeld(left.sessions, verdict.id);
    }
  }

  /** Closing what the user closed, or a worktree the user deleted, the view ends
      on a workspace with an open session, on home, or on a shell respawned in
      place. The one exception is exact: the respawn policy emptied the workspace
      on screen, its spawn failed, and no row was offered to follow. */
  lemma CloseStrandsExactlyWhen(s: State, ids: seq<nat>, ws: Workspace, reason: Reason, cfg: Config, w: World, follow: Option<FollowTarget>)
    requires Consistent(s) && Live(s.sessions, s.current) && AllFrom(s, ids, ws) && !reason.SpawnFailed?
    requires Offers(Closed(s, ids, ws, reason, cfg, w).0, follow)
    ensures var left := RemoveEach(s, ids, cfg.follows, cfg.goesBack);
            Rests(Settled(s, ids, ws, reason, cfg, w, follow)) <==>
            !(cfg.policy.Respawn? && reason.User? && ws == s.current && ws.Some?
              && !Live(left.sessions, ws) && w.spawns(ws).None? && !(cfg.follows && follow.Some?))
  {
    var left := RemoveEach(s, ids, cfg.follows, cfg.goesBack);
    var verdict := VerdictOf(s, left.sessions, ids, ws, reason, cfg, w);
    RemovalLeavesOthersLive(s, ids, ws, cfg);
    RemoveEachIsConsistent(s, ids, cfg.follows, cfg.goesBack);
    VerdictIsSound(s, ids, ws, reason, cfg, w);
    if cfg.follows && follow.Some? {
      FollowTargetRests(Closed(s, ids, ws, reason, cfg, w).0, follow.value);
    } else if verdict.Stay? {
      assert Rests(left);
    } else if cfg.policy.Respawn? && reason.User? {
      if w.spawns(ws).Some? {
        SpawnKeepsLive(left, ws, w.spawns(ws).value);
      }
    } else {
      SoundVerdictRests(left, verdict, w);
    }
  }

  /** A deletion that empties the workspace on screen never ends in the deleted
      workspace and never opens a shell there, whatever the policy and whatever
      the reconciler prefers. */
  lemma DeletedWorkspaceIsLeft(s: State, ids: seq<nat>, ws: Workspace, cfg: Config, w: World, follow: Option<FollowTarget>)
    requires Consistent(s) && ws.Some? && ws == s.current
    requires forall id :: Holds(s.sessions, ws, id) ==> id in ids
    requires Offers(Closed(s, ids, ws, WorktreeDeleted, cfg, w).0, follow)
    ensures var after := Settled(s, ids, ws, WorktreeDeleted, cfg, w, follow);
            after.current != ws && !Live(after.sessions, ws)
  {
    var left := RemoveEach(s, ids, cfg.follows, cfg.goesBack);
    var verdict := VerdictOf(s, left.sessions, ids, ws, WorktreeDeleted, cfg, w);
    RemoveEachIsConsistent(s, ids, cfg.follows, cfg.goesBack);
    LiveMeansHeld(left.sessions, ws);
    assert !Live(left.sessions, ws);
    VerdictIsSound(s, ids, ws, WorktreeDeleted, cfg, w);
    assert !verdict.Stay? && !verdict.Activate?;
    if cfg.follows && follow.Some? {
      FollowTargetRests(left, follow.value);
    } else {
      VerdictLeaves(left, verdict, w, ws);
    }
  }

  /** Acting on a verdict neither goes to an empty workspace nor fills it. */
  lemma VerdictLeaves(s: State, verdict: Verdict, w: World, ws: Workspace)
    requires Sound(s, verdict) && !verdict.Activate? && ws.Some? && !Live(s.sessions, ws)
    ensures var after := ApplyVerdict(s, verdict, w);
            after.current != ws && !Live(after.sessions, ws)
  {
    match verdict
    case Home =>
      EnsureActiveKeepsLive(s.(current := None), w);
    case ActivateSession(id) =>
      ActivatingLandsOnTheSession(s, id);
      LiveMeansHeld(s.sessions, ActivateSessionById(s, id).current);
  }

  /** A close that decides nothing about the view. */
  predicate Quiet(s: State, left: State, ws: Workspace, reason: Reason) {
    reason.SpawnFailed? || ws != s.current || Live(left.sessions, ws)
  }

  /** What a quiet close does, exactly. The view and every active entry stay as
      the removal left them if and only if follow is off, the cursor's landing
      offers no row, or the row offered is on screen already; otherwise the row
      offered is shown. */
  lemma QuietCloseMovesExactlyWhen(s: State, ids: seq<nat>, ws: Workspace, reason: Reason, cfg: Config, w: World,
                                   follow: Option<FollowTarget>)
    requires Consistent(s) && Quiet(s, RemoveEach(s, ids, cfg.follows, cfg.goesBack), ws, reason)
    requires Offers(RemoveEach(s, ids, cfg.follows, cfg.goesBack), follow)
    ensures var left, after := RemoveEach(s, ids, cfg.follows, cfg.goesBack), Settled(s, ids, ws, reason, cfg, w, follow);
            var stays := !cfg.follows || follow.None? || Shows(left, follow.value);
            && left.current == s.current && after.sessions == left.sessions
            && (after.current == left.current && after.active == left.active <==> stays)
            && (stays ==> after == left)
            && (!stays ==>
                  var row := TargetSession(left, follow.value);
                  row.Some? && Holds(after.sessions, after.current, row.value) && Active(after, after.current) == row)
  {
    var left := RemoveEach(s, ids, cfg.follows, cfg.goesBack);
    RemoveEachIsConsistent(s, ids, cfg.follows, cfg.goesBack);
    assert VerdictOf(s, left.sessions, ids, ws, reason, cfg, w).Stay?;
    assert Closed(s, ids, ws, reason, cfg, w) == (left, None);
    if follow.Some? {
      FollowShowsTheRow(left, follow.value);
    }
  }

  /** Three tabs in /b while /a is on screen. */
  const TWO_WORKSPACES := State(
    [Session(Some("/a"), 1, None, Shell), Session(Some("/b"), 2, None, Shell),
     Session(Some("/b"), 3, None, Shell), Session(Some("/b"), 4, None, Shell)],
    map[Some("/a") := 1, Some("/b") := 2], map[], Some("/a"))

  /** Closing the middle tab of /b, with the sidebar's cursor on its row, takes
      the terminal to /b when the sidebar follows, and leaves it on /a when not. */
  lemma ClosingElsewhereCanMoveTheView(policy: Policy, goesBack: bool, w: World)
    ensures var s, row := TWO_WORKSPACES, Some(ToSession(4));
            var on, off := Config(policy, true, goesBack), Config(policy, false, goesBack);
            && Consistent(s) && Offers(Closed(s, [3], Some("/b"), User, on, w).0, row)
            && Settled(s, [3], Some("/b"), User, on, w, row).current == Some("/b")
            && Settled(s, [3], Some("/b"), User, off, w, row).current == Some("/a")
  {
    var s, row := TWO_WORKSPACES, Some(ToSession(4));
    TwoWorkspacesAreConsistent();
    forall follows: bool
      ensures Settled(s, [3], Some("/b"), User, Config(policy, follows, goesBack), w, row).current
           == if follows then Some("/b") else Some("/a")
      ensures Offers(Closed(s, [3], Some("/b"), User, Config(policy, follows, goesBack), w).0, row)
    {
      FollowsToTheSibling(s, Config(policy, follows, goesBack), w);
    }
  }

  lemma TwoWorkspacesAreConsistent()
    ensures Consistent(TWO_WORKSPACES) && Holds(TWO_WORKSPACES.sessions, Some("/b"), 4)
    ensures TWO_WORKSPACES.current == Some("/a")
  {
    var s := TWO_WORKSPACES.sessions;
    assert s[0].id == 1 && s[1].id == 2 && s[2].id == 3 && s[3].id == 4;
  }

  lemma FollowsToTheSibling(s: State, cfg: Config, w: World)
    requires Consistent(s) && Holds(s.sessions, Some("/b"), 4) && s.current == Some("/a")
    ensures var row := Some(ToSession(4));
            && Offers(Closed(s, [3], Some("/b"), User, cfg, w).0, row)
            && Settled(s, [3], Some("/b"), User, cfg, w, row).current == if cfg.follows then Some("/b") else Some("/a")
  {
    var left, row := RemoveEach(s, [3], cfg.follows, cfg.goesBack), Some(ToSession(4));
    RemoveEachIsConsistent(s, [3], cfg.follows, cfg.goesBack);
    PositionIsHeld(left.sessions, 4);
    assert Holds(left.sessions, Some("/b"), 4);
    QuietCloseMovesExactlyWhen(s, [3], Some("/b"), User, cfg, w, row);
    var after := Settled(s, [3], Some("/b"), User, cfg, w, row);
    if cfg.follows {
      FollowShowsTheRow(left, row.value);
      OneHomePerSession(left.sessions, after.current, Some("/b"), 4);
    }
  }

  /** In particular after closing tabs of another workspace, or some of this one,
      whatever the policy. */
  lemma CloseElsewhereMovesExactlyWhen(s: State, ids: seq<nat>, ws: Workspace, reason: Reason, cfg: Config, w: World,
                                       follow: Option<FollowTarget>)
    requires Consistent(s)
    requires ws != s.current || Live(RemoveEach(s, ids, cfg.follows, cfg.goesBack).sessions, ws)
    requires Offers(RemoveEach(s, ids, cfg.follows, cfg.goesBack), follow)
    ensures var left, after := RemoveEach(s, ids, cfg.follows, cfg.goesBack), Settled(s, ids, ws, reason, cfg, w, follow);
            after.current == s.current && after.active == left.active
            <==> !cfg.follows || follow.None? || Shows(left, follow.value)
  {
    QuietCloseMovesExactlyWhen(s, ids, ws, reason, cfg, w, follow);
  }

  /** And after dropping a session that never got a shell. */
  lemma FailedSpawnMovesExactlyWhen(s: State, ids: seq<nat>, ws: Workspace, cfg: Config, w: World, follow: Option<FollowTarget>)
    requires Consistent(s) && Offers(RemoveEach(s, ids, cfg.follows, cfg.goesBack), follow)
    ensures var left, after := RemoveEach(s, ids, cfg.follows, cfg.goesBack), Settled(s, ids, ws, SpawnFailed, cfg, w, follow);
            after.current == s.current && after.active == left.active
            <==> !cfg.follows || follow.None? || Shows(left, follow.value)
  {
    QuietCloseMovesExactlyWhen(s, ids, ws, SpawnFailed, cfg, w, follow);
  }

  /** A workspace brought on screen shows the tab that was active there, or the first
      one displayed there; an empty one gets a shell, if one can be opened. Nothing
      else changes. */
  lemma ShownWorkspace(s: State, w: World)
    requires Consistent(s)
    ensures var ws, after := s.current, EnsureActive(s, w);
            && after.current == ws && (forall v :: v != ws ==> Active(after, v) == Active(s, v))
            && (if Live(s.sessions, ws) then
                  && after.sessions == s.sessions
                  && (if ws in s.active then Active(after, ws) == Some(s.active[ws])
                      else DisplayedIds(s.sessions, w.ranks, ws) != []
                           && Active(after, ws) == Some(DisplayedIds(s.sessions, w.ranks, ws)[0]))
                else if w.spawns(ws).None? then after == s
                else
                  && after.sessions == s.sessions + [Session(ws, w.spawns(ws).value, None, Shell)]
                  && Active(after, ws) == w.spawns(ws))
  {
    var ws := s.current;
    var own := Filter(s.sessions, InWorkspace(ws));
    FilterElements(s.sessions, InWorkspace(ws));
    SortedElements(own, w.ranks);
    if ws in s.active {
      LiveMeansHeld(s.sessions, ws);
      PositionIsHeld(s.sessions, s.active[ws]);
    } else {
      FirstShown(s, w, own);
    }
  }

  lemma FirstShown(s: State, w: World, own: seq<Session>)
    requires own == Filter(s.sessions, InWorkspace(s.current)) && s.current !in s.active
    requires forall x :: x in Sort(own, Before(w.ranks)) <==> x in own
    requires forall x :: x in own <==> x in s.sessions && InWorkspace(s.current)(x)
    ensures var shown := Sort(own, Before(w.ranks));
            && (Live(s.sessions, s.current) <==> shown != [])
            && (shown != [] ==> EnsureActive(s, w) == SetActive(s, s.current, shown[0].id))
            && (shown == [] ==> EnsureActive(s, w) == TrySpawn(s, s.current, w))
  {
    var shown := Sort(own, Before(w.ranks));
    if shown != [] {
      assert shown[0] in own;
      PositionIsHeld(s.sessions, shown[0].id);
      assert Holds(s.sessions, s.current, shown[0].id);
    }
    if i :| 0 <= i < |s.sessions| && s.sessions[i].workspace == s.current {
      assert s.sessions[i] in own;
    }
  }

  /** A worktree is shown unless it is gone and nothing runs in it. */
  lemma WorktreeIsShownExactlyWhen(s: State, path: string, w: World)
    ensures var after := ActivateWorktree(s, path, w);
            if w.gone(path) && !Live(s.sessions, Some(path)) then after == s
            else after == EnsureActive(s.(current := Some(path)), w) && after.current == Some(path)
  {
    EnsureActiveKeepsLive(s.(current := Some(path)), w);
  }

  /** Under navigate, emptying the workspace on screen shows the row offered to
      follow; without one it shows the project's main checkout if something is
      open there and the workspace was not deleted, and home otherwise. */
  lemma NavigateShowsTheMainOrHome(s: State, ids: seq<nat>, ws: Workspace, reason: Reason, cfg: Config, w: World,
                                   follow: Option<FollowTarget>)
    requires Consistent(s) && !reason.SpawnFailed? && cfg.policy.Navigate? && ws == s.current
    requires !Live(RemoveEach(s, ids, cfg.follows, cfg.goesBack).sessions, ws)
    requires Offers(Closed(s, ids, ws, reason, cfg, w).0, follow)
    ensures var left, after := RemoveEach(s, ids, cfg.follows, cfg.goesBack), Settled(s, ids, ws, reason, cfg, w, follow);
            var main := w.main.Some? && Live(left.sessions, Some(w.main.value)) && reason.User? && ws.Some?;
            if cfg.follows && follow.Some? then
              && Active(after, after.current) == TargetSession(left, follow.value) && Live(after.sessions, after.current)
              && after.sessions == left.sessions
            else after == EnsureActive(left.(current := if main then Some(w.main.value) else None), w)
  {
    var left := RemoveEach(s, ids, cfg.follows, cfg.goesBack);
    var verdict := VerdictOf(s, left.sessions, ids, ws, reason, cfg, w);
    RemoveEachIsConsistent(s, ids, cfg.follows, cfg.goesBack);
    VerdictIsSound(s, ids, ws, reason, cfg, w);
    assert verdict.Home? || verdict.Activate?;
    if cfg.follows && follow.Some? {
      FollowShowsTheRow(left, follow.value);
      FollowTargetRests(left, follow.value);
    } else {
      SoundVerdictRests(left, verdict, w);
    }
  }

  /** The id a spawn yields is new. */
  ghost predicate SpawnsFresh(s: State, w: World) {
    forall ws, v, id :: w.spawns(ws) == Some(id) ==> !Holds(s.sessions, v, id)
  }

  lemma SpawnedIsConsistent(s: State, ws: Workspace, id: nat)
    requires Consistent(s) && forall v :: !Holds(s.sessions, v, id)
    ensures Consistent(Spawned(s, ws, id)) && Holds(Spawned(s, ws, id).sessions, ws, id)
  {
    var grown := s.(sessions := s.sessions + [Session(ws, id, None, Shell)]);
    forall k | 0 <= k < |s.sessions|
      ensures s.sessions[k].id != id
    {
      assert Holds(s.sessions, s.sessions[k].workspace, s.sessions[k].id);
    }
    assert forall v, m :: Holds(s.sessions, v, m) ==> Holds(grown.sessions, v, m) by {
      forall v, m | Holds(s.sessions, v, m)
        ensures Holds(grown.sessions, v, m)
      {
        var k :| 0 <= k < |s.sessions| && s.sessions[k].workspace == v && s.sessions[k].id == m;
        assert grown.sessions[k] == s.sessions[k];
      }
    }
    assert grown.sessions[|s.sessions|].id == id;
    SetActiveIsConsistent(grown, ws, id);
  }

  /** Under respawn, emptying it by closing tabs leaves a fresh active shell in
      place exactly when one could be spawned; the view stays there, unless a row
      is offered to follow, which is then shown. */
  lemma RespawnStaysInPlaceExactlyWhen(s: State, ids: seq<nat>, ws: Workspace, cfg: Config, w: World, follow: Option<FollowTarget>)
    requires Consistent(s) && cfg.policy.Respawn? && ws == s.current
    requires !Live(RemoveEach(s, ids, cfg.follows, cfg.goesBack).sessions, ws)
    requires SpawnsFresh(RemoveEach(s, ids, cfg.follows, cfg.goesBack), w)
    requires Offers(Closed(s, ids, ws, User, cfg, w).0, follow)
    ensures var closed, after := Closed(s, ids, ws, User, cfg, w).0, Settled(s, ids, ws, User, cfg, w, follow);
            && after.sessions == closed.sessions && (Live(after.sessions, ws) <==> w.spawns(ws).Some?)
            && (if cfg.follows && follow.Some? then
                  var row := TargetSession(closed, follow.value);
                  && row.Some? && Active(after, after.current) == row && Holds(after.sessions, after.current, row.value)
                  && (after.current == ws <==> Holds(after.sessions, ws, row.value))
                else after.current == ws && Active(after, ws) == w.spawns(ws))
  {
    var left := RemoveEach(s, ids, cfg.follows, cfg.goesBack);
    var closed := Closed(s, ids, ws, User, cfg, w).0;
    RemoveEachIsConsistent(s, ids, cfg.follows, cfg.goesBack);
    assert closed == TrySpawn(left, ws, w);
    if w.spawns(ws).Some? {
      SpawnKeepsLive(left, ws, w.spawns(ws).value);
      SpawnedIsConsistent(left, ws, w.spawns(ws).value);
    } else {
      LiveMeansHeld(left.sessions, ws);
    }
    if follow.Some? {
      FollowedHome(closed, ws, follow.value);
    }
  }

  lemma FollowedHome(s: State, ws: Workspace, target: FollowTarget)
    requires Consistent(s) && Offers(s, Some(target))
    ensures var after, row := ApplyFollowTarget(s, target), TargetSession(s, target);
            && row.Some? && after.sessions == s.sessions && Active(after, after.current) == row
            && Holds(s.sessions, after.current, row.value) && (after.current == ws <==> Holds(s.sessions, ws, row.value))
  {
    FollowShowsTheRow(s, target);
    var after, row := ApplyFollowTarget(s, target), TargetSession(s, target).value;
    if Holds(s.sessions, ws, row) {
      OneHomePerSession(s.sessions, ws, after.current, row);
    }
  }

  /** An offered workspace is shown with the tab active there, or its first in the
      list when none is; an offered tab, in its own workspace. */
  lemma OfferIsShown(s: State, target: FollowTarget)
    requires Consistent(s) && Offers(s, Some(target))
    ensures var after := ApplyFollowTarget(s, target);
            && after.sessions == s.sessions
            && (match target
                case ToWorkspace(ws) =>
                  after.current == ws && Active(after, ws) == (if ws in s.active then Some(s.active[ws]) else HeadId(s.sessions, ws))
                case ToSession(id) =>
                  Holds(s.sessions, after.current, id) && Active(after, after.current) == Some(id))
            && forall v :: v != after.current ==> Active(after, v) == Active(s, v)
  {
    FollowShowsTheRow(s, target);
    if target.ToWorkspace? {
      WorkspaceTarget(s, target.ws);
      var after, id := ApplyFollowTarget(s, target), TargetSession(s, target).value;
      OneHomePerSession(s.sessions, target.ws, after.current, id);
    }
  }

  lemma WorkspaceTarget(s: State, ws: Workspace)
    requires Consistent(s) && Live(s.sessions, ws)
    ensures var id := TargetSession(s, ToWorkspace(ws));
            id == (if ws in s.active then Some(s.active[ws]) else HeadId(s.sessions, ws))
            && id.Some? && Holds(s.sessions, ws, id.value)
  {
    FirstInIsHead(s.sessions, ws, 0);
    FirstInIsFound(s.sessions, ws, 0);
    assert s.sessions[0..] == s.sessions;
    SiblingIsHeld(s.sessions, ws, 0, false);
    if ws in s.active {
      PositionIsHeld(s.sessions, s.active[ws]);
    }
  }

  /** Under a ring policy, emptying the workspace on screen shows the session the
      ring lands on, when it lands at all and no row is offered to follow. */
  lemma RingPolicyShowsTheLanding(s: State, ids: seq<nat>, ws: Workspace, reason: Reason, cfg: Config, w: World)
    requires Consistent(s) && !reason.SpawnFailed? && cfg.policy in {RingGlobal, RingProject} && ws == s.current
    requires !Live(RemoveEach(s, ids, cfg.follows, cfg.goesBack).sessions, ws)
    ensures var prefer := if cfg.policy.RingProject? then w.project else None;
            var landing := RingLanding(RingOf(s.sessions, w.ranks, w.order), ids, prefer);
            landing.Some? ==>
              var after := Settled(s, ids, ws, reason, cfg, w, None);
              after.current == landing.value.0 && Active(after, landing.value.0) == Some(landing.value.1)
  {
    var left := RemoveEach(s, ids, cfg.follows, cfg.goesBack);
    var prefer := if cfg.policy.RingProject? then w.project else None;
    var ring := RingOf(s.sessions, w.ranks, w.order);
    var landing := RingLanding(ring, ids, prefer);
    if landing.Some? {
      var (home, id) := landing.value;
      RingPolicyActivates(s, ids, ws, reason, cfg, w, landing.value);
      LandingIsLeft(s, ids, cfg, w, prefer);
      PositionIsHeld(left.sessions, id);
      ActivatingLandsOnTheSession(left, id);
      OneHomePerSession(left.sessions, home, ActivateSessionById(left, id).current, id);
    }
  }

  lemma RingPolicyActivates(s: State, ids: seq<nat>, ws: Workspace, reason: Reason, cfg: Config, w: World, landing: (Workspace, nat))
    requires !reason.SpawnFailed? && cfg.policy.Rings() && ws == s.current
    requires !Live(RemoveEach(s, ids, cfg.follows, cfg.goesBack).sessions, ws)
    requires RingLanding(RingOf(s.sessions, w.ranks, w.order), ids,
                         if cfg.policy.RingProject? then w.project else None) == Some(landing)
    ensures Settled(s, ids, ws, reason, cfg, w, None)
         == ActivateSessionById(RemoveEach(s, ids, cfg.follows, cfg.goesBack), landing.1)
  {
    var left := RemoveEach(s, ids, cfg.follows, cfg.goesBack);
    RingVerdict(s, left.sessions, ids, ws, reason, cfg, w, landing);
    assert !cfg.policy.Respawn?;
  }

  lemma RingVerdict(s: State, left: seq<Session>, ids: seq<nat>, ws: Workspace, reason: Reason, cfg: Config, w: World,
                    landing: (Workspace, nat))
    requires !reason.SpawnFailed? && cfg.policy.Rings() && ws == s.current && !Live(left, ws)
    requires RingLanding(RingOf(s.sessions, w.ranks, w.order), ids,
                         if cfg.policy.RingProject? then w.project else None) == Some(landing)
    ensures VerdictOf(s, left, ids, ws, reason, cfg, w) == ActivateSession(landing.1)
  {
    var main := if reason.WorktreeDeleted? || ws.None? then None else w.main;
    assert !CloseNavigation(reason, CloseFallback(ws, s.current, left, main)).Stay?;
  }

  /** The ring's landing is open, in the workspace it names, after the removal. */
  lemma LandingIsLeft(s: State, ids: seq<nat>, cfg: Config, w: World, prefer: Option<string>)
    requires Consistent(s)
    ensures var left := RemoveEach(s, ids, cfg.follows, cfg.goesBack);
            var landing := RingLanding(RingOf(s.sessions, w.ranks, w.order), ids, prefer);
            Consistent(left) && (landing.Some? ==> Holds(left.sessions, landing.value.0, landing.value.1))
  {
    RemoveEachIsConsistent(s, ids, cfg.follows, cfg.goesBack);
    var ring := RingOf(s.sessions, w.ranks, w.order);
    if RingLanding(ring, ids, prefer).Some? {
      LandingSurvives(ring, ids, prefer);
      RingListsSessions(s.sessions, w.ranks, w.order);
    }
  }
}
