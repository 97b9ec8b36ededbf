/** Where the view goes when sessions close. */
module CloseSessions {
  import opened AppState
  import opened CloseLandings
  import opened DisplayOrder
  import opened Options
  import opened Seqs
  import opened SessionRing
  import opened Sessions
  import opened StableSort

  datatype Policy = Respawn | Navigate | RingGlobal | RingProject {
    predicate Rings() { RingGlobal? || RingProject? }
  }

  datatype Reason = User | SpawnFailed | WorktreeDeleted

  datatype Verdict = Stay | Activate(main: string) | ActivateSession(id: nat) | Home

  datatype Config = Config(policy: Policy, follows: bool, goesBack: bool)

  /** What the rest of the application answers during a close: the order of the
      workspaces with their projects, the project and main checkout of the
      workspace that lost a session, the ranks of panes, which checkouts are
      gone, and the id a spawn into a workspace yields, if it succeeds. */
  datatype World = World(
    order: seq<(Workspace, Option<string>)>,
    project: Option<string>,
    main: Option<string>,
    ranks: Ranks,
    gone: string -> bool,
    spawns: Workspace -> Option<nat>)

  /** Every session of the listed workspaces, as the rings step through them. */
  function RingOf(sessions: seq<Session>, ranks: Ranks, order: seq<(Workspace, Option<string>)>): Ring {
    if order == [] then []
    else
      Entries(Sort(Filter(sessions, InWorkspace(order[0].0)), Before(ranks)), order[0].1)
      + RingOf(sessions, ranks, order[1..])
  }

  function CloseFallback(removed: Workspace, current: Workspace, remaining: seq<Session>, main: Option<string>): Verdict {
    if removed != current || Live(remaining, removed) then Stay
    else if main.Some? && Live(remaining, Some(main.value)) then Activate(main.value)
    else Home
  }

  function CloseNavigation(reason: Reason, verdict: Verdict): Verdict {
    if reason.SpawnFailed? then Stay else verdict
  }

  /** The verdict on removing `ids` from `ws`, given the list that is left. */
  function VerdictOf(before: State, remaining: seq<Session>, ids: seq<nat>, ws: Workspace, reason: Reason, cfg: Config, w: World): Verdict {
    var main := if reason.WorktreeDeleted? || ws.None? then None else w.main;
    var verdict := CloseNavigation(reason, CloseFallback(ws, before.current, remaining, main));
    if verdict.Stay? || !cfg.policy.Rings() then verdict
    else
      var prefer := if cfg.policy.RingProject? then w.project else None;
      match RingLanding(RingOf(before.sessions, w.ranks, w.order), ids, prefer)
      case None => verdict
      case Some(landing) => ActivateSession(landing.1)
  }

  // ---- Acting on a verdict ----

  function Spawned(s: State, ws: Workspace, id: nat): State {
    SetActive(s.(sessions := s.sessions + [Session(ws, id, None, Shell)]), ws, id)
  }

  function TrySpawn(s: State, ws: Workspace, w: World): State {
    match w.spawns(ws)
    case None => s
    case Some(id) => Spawned(s, ws, id)
  }

  predicate HasActiveSession(s: State) {
    match Active(s, s.current)
    case None => false
    case Some(id) => Position(s.sessions, id).Some?
  }

  function Adopted(s: State, w: World): State {
    var shown := Sort(Filter(s.sessions, InWorkspace(s.current)), Before(w.ranks));
    if shown == [] then s else SetActive(s, s.current, shown[0].id)
  }

  function EnsureActive(s: State, w: World): State {
    if HasActiveSession(s) then s
    else
      var adopted := Adopted(s, w);
      if HasActiveSession(adopted) then adopted else TrySpawn(adopted, s.current, w)
  }

  function ActivateHome(s: State, w: World): State {
    EnsureActive(s.(current := None), w)
  }

  function ActivateWorktree(s: State, path: string, w: World): State {
    if w.gone(path) && !Live(s.sessions, Some(path)) then s
    else EnsureActive(s.(current := Some(path)), w)
  }

  function ActivateSessionById(s: State, id: nat): State {
    match Position(s.sessions, id)
    case None => s
    case Some(i) => SetActive(s.(current := s.sessions[i].workspace), s.sessions[i].workspace, id)
  }

  function ApplyVerdict(s: State, verdict: Verdict, w: World): State {
    match verdict
    case Stay => s
    case Activate(main) => ActivateWorktree(s, main, w)
    case ActivateSession(id) => ActivateSessionById(s, id)
    case Home => ActivateHome(s, w)
  }

  // ---- Follow mode: the reconciler has the last word ----

  datatype FollowTarget = ToSession(id: nat) | ToWorkspace(ws: Workspace)

  /** The session a target stands for: a workspace's active one, or its first
      when that entry is stale. */
  function TargetSession(s: State, target: FollowTarget): Option<nat> {
    match target
    case ToSession(id) => Some(id)
    case ToWorkspace(ws) =>
      var own := Active(s, ws);
      if own.Some? && Position(s.sessions, own.value).Some? then own else FirstOf(s.sessions, ws)
  }

  function ApplyFollowTarget(s: State, target: FollowTarget): State {
    var id := TargetSession(s, target);
    if id.None? then s else ActivateSessionById(s, id.value)
  }

  /** A removal landing offers the terminal only what is open. */
  predicate Offers(s: State, follow: Option<FollowTarget>) {
    match follow
    case None => true
    case Some(ToSession(id)) => Position(s.sessions, id).Some?
    case Some(ToWorkspace(ws)) => Live(s.sessions, ws)
  }

  /** The reconciler's pass over a changed list: under follow the row the cursor
      landed on wins over a deferred verdict, deferred or not. */
  function Reconciled(s: State, deferred: Option<Verdict>, follows: bool, follow: Option<FollowTarget>, w: World): State {
    if !follows then s
    else
      match follow
      case Some(target) => ApplyFollowTarget(s, target)
      case None => if deferred.Some? then ApplyVerdict(s, deferred.value, w) else s
  }

  /** One close: the state it leaves, and the verdict it defers, if any. */
  function Closed(s: State, ids: seq<nat>, ws: Workspace, reason: Reason, cfg: Config, w: World): (State, Option<Verdict>) {
    var left := RemoveEach(s, ids, cfg.follows, cfg.goesBack);
    var verdict := VerdictOf(s, left.sessions, ids, ws, reason, cfg, w);
    if !verdict.Stay? && cfg.policy.Respawn? && !reason.WorktreeDeleted? then (TrySpawn(left, ws, w), None)
    else if cfg.follows && !verdict.Stay? then (left, Some(verdict))
    else (ApplyVerdict(left, verdict, w), None)
  }

  /** A close and the reconciler's pass after it, which runs whether or not the
      close deferred a verdict. */
  function Settled(s: State, ids: seq<nat>, ws: Workspace, reason: Reason, cfg: Config, w: World, follow: Option<FollowTarget>): State {
    var (after, deferred) := Closed(s, ids, ws, reason, cfg, w);
    Reconciled(after, deferred, cfg.follows, follow, w)
  }

  // ---- Facts about the parts ----

  /** The view rests on home or on a workspace with an open session. */
  predicate Rests(s: State) {
    s.current.None? || Live(s.sessions, s.current)
  }

  lemma LiveMeansHeld(sessions: seq<Session>, ws: Workspace)
    ensures Live(sessions, ws) <==> exists id :: Holds(sessions, ws, id)
  {
    if Live(sessions, ws) {
      var i :| 0 <= i < |sessions| && sessions[i].workspace == ws;
      assert Holds(sessions, ws, sessions[i].id);
    }
  }

  lemma PositionIsHeld(sessions: seq<Session>, id: nat)
    ensures Position(sessions, id).Some? <==> exists ws :: Holds(sessions, ws, id)
  {
    match Position(sessions, id)
    case None =>
    case Some(i) => assert Holds(sessions, sessions[i].workspace, id);
  }

  lemma SortedElements(sessions: seq<Session>, ranks: Ranks)
    ensures forall x :: x in Sort(sessions, Before(ranks)) <==> x in sessions
  {
    SortPermutes(sessions, Before(ranks));
    forall x
      ensures x in Sort(sessions, Before(ranks)) <==> x in sessions
    {
      assert x in sessions <==> x in multiset(sessions);
      assert x in Sort(sessions, Before(ranks)) <==> x in multiset(Sort(sessions, Before(ranks)));
    }
  }

  /** The ring lists open sessions under their own workspaces. */
  lemma {:induction false} RingListsSessions(sessions: seq<Session>, ranks: Ranks, order: seq<(Workspace, Option<string>)>)
    ensures forall k :: 0 <= k < |RingOf(sessions, ranks, order)| ==>
              Holds(sessions, RingOf(sessions, ranks, order)[k].workspace, RingOf(sessions, ranks, order)[k].id)
  {
    if order != [] {
      RingListsSessions(sessions, ranks, order[1..]);
      var own := Filter(sessions, InWorkspace(order[0].0));
      FilterElements(sessions, InWorkspace(order[0].0));
      SortedElements(own, ranks);
      var shown := Sort(own, Before(ranks));
      forall k | 0 <= k < |shown|
        ensures Holds(sessions, shown[k].workspace, shown[k].id)
      {
        assert shown[k] in own;
        var i := IndexIn(sessions, shown[k]);
      }
    }
  }

  lemma EnsureActiveKeepsLive(s: State, w: World)
    ensures EnsureActive(s, w).current == s.current
    ensures forall ws :: Live(s.sessions, ws) ==> Live(EnsureActive(s, w).sessions, ws)
    ensures forall ws :: Live(EnsureActive(s, w).sessions, ws) ==> Live(s.sessions, ws) || ws == s.current
  {
    match w.spawns(s.current)
    case None =>
    case Some(id) => SpawnKeepsLive(Adopted(s, w), s.current, id);
  }

  lemma SpawnKeepsLive(s: State, ws: Workspace, id: nat)
    ensures Spawned(s, ws, id).current == s.current && Live(Spawned(s, ws, id).sessions, ws)
    ensures forall v :: Live(s.sessions, v) ==> Live(Spawned(s, ws, id).sessions, v)
    ensures forall v :: Live(Spawned(s, ws, id).sessions, v) ==> Live(s.sessions, v) || v == ws
  {
    var after := s.sessions + [Session(ws, id, None, Shell)];
    assert after[|s.sessions|].workspace == ws;
    forall v | Live(s.sessions, v)
      ensures Live(after, v)
    {
      var i :| 0 <= i < |s.sessions| && s.sessions[i].workspace == v;
      assert after[i].workspace == v;
    }
  }

  lemma ActivatingLandsOnTheSession(s: State, id: nat)
    requires Position(s.sessions, id).Some?
    ensures var after := ActivateSessionById(s, id);
            after.sessions == s.sessions && Holds(after.sessions, after.current, id)
            && Active(after, after.current) == Some(id)
  {}

  /** What a verdict that moves the view promises: it names something open. */
  predicate Sound(s: State, verdict: Verdict) {
    match verdict
    case Stay => false
    case Activate(main) => Live(s.sessions, Some(main))
    case ActivateSession(id) => Position(s.sessions, id).Some?
    case Home => true
  }

  lemma SoundVerdictRests(s: State, verdict: Verdict, w: World)
    requires Sound(s, verdict)
    ensures Rests(ApplyVerdict(s, verdict, w))
    ensures verdict.Home? ==> ApplyVerdict(s, verdict, w).current.None?
    ensures verdict.Activate? ==> ApplyVerdict(s, verdict, w).current == Some(verdict.main)
  {
    match verdict
    case Activate(main) => EnsureActiveKeepsLive(s.(current := Some(main)), w);
    case ActivateSession(id) =>
      ActivatingLandsOnTheSession(s, id);
      LiveMeansHeld(s.sessions, ActivateSessionById(s, id).current);
    case Home => EnsureActiveKeepsLive(s.(current := None), w);
  }

  lemma FirstOfIsHeld(sessions: seq<Session>, ws: Workspace)
    requires Live(sessions, ws)
    ensures FirstOf(sessions, ws).Some? && Holds(sessions, ws, FirstOf(sessions, ws).value)
  {
    FirstInIsFound(sessions, ws, 0);
    SiblingIsHeld(sessions, ws, 0, false);
  }

  lemma TargetIsOpen(s: State, target: FollowTarget)
    requires Offers(s, Some(target))
    ensures TargetSession(s, target).Some? && Position(s.sessions, TargetSession(s, target).value).Some?
  {
    if target.ToWorkspace? {
      FirstOfIsHeld(s.sessions, target.ws);
      PositionIsHeld(s.sessions, FirstOf(s.sessions, target.ws).value);
    }
  }

  lemma FollowTargetRests(s: State, target: FollowTarget)
    requires Offers(s, Some(target))
    ensures ApplyFollowTarget(s, target).sessions == s.sessions
    ensures Live(s.sessions, ApplyFollowTarget(s, target).current)
  {
    TargetIsOpen(s, target);
    var after := ApplyFollowTarget(s, target);
    ActivatingLandsOnTheSession(s, TargetSession(s, target).value);
    LiveMeansHeld(s.sessions, after.current);
  }

  /** What an offered row's session is already the one on screen. */
  predicate Shows(s: State, target: FollowTarget) {
    Active(s, s.current) == TargetSession(s, target)
  }

  /** Following shows the offered row's session, and changes nothing exactly when
      it was shown already. */
  lemma FollowShowsTheRow(s: State, target: FollowTarget)
    requires Consistent(s) && Offers(s, Some(target))
    ensures var after := ApplyFollowTarget(s, target);
            && TargetSession(s, target).Some? && after.sessions == s.sessions
            && Holds(s.sessions, after.current, TargetSession(s, target).value)
            && Active(after, after.current) == TargetSession(s, target)
            && (Shows(s, target) ==> after == s)
            && (after.current == s.current && after.active == s.active ==> Shows(s, target))
  {
    TargetIsOpen(s, target);
    var id := TargetSession(s, target).value;
    ActivatingLandsOnTheSession(s, id);
    var i := Position(s.sessions, id).value;
    assert Holds(s.sessions, s.sessions[i].workspace, id);
    if Shows(s, target) {
      OneHomePerSession(s.sessions, s.current, s.sessions[i].workspace, id);
    }
  }
}
