/** The application object: its session list, active entries, the workspace on
    screen and the sidebar's cursor, changed in place by reorders, moves, closes and
    the pass that repairs the cursor. */
module AlacritreeApp {
  import opened AppState
  import opened CloseLandings
  import opened CloseSessions
  import opened DisplayOrder
  import opened Options
  import opened Seqs
  import opened SessionRing
  import opened Sessions
  import opened SidebarFocus
  import opened Walks

  class AlacritreeApp {
    var sessions: seq<Session>
    var active: map<Workspace, nat>
    var returnsTo: map<nat, nat>
    var current: Workspace
    /** What a close has left for the next reconciler pass to decide. */
    var deferredClose: Option<Verdict>
    /** The row the sidebar's cursor is on, the hidden row it is to come back to, and
        what the last pass left. */
    var cursor: Option<Row>
    var anchor: Option<Row>
    var written: Option<FocusWrite>

    constructor (s: State)
      ensures View() == s && deferredClose == None && cursor == None && anchor == None && written == None
    {
      sessions, active, returnsTo, current := s.sessions, s.active, s.returnsTo, s.current;
      deferredClose, cursor, anchor, written := None, None, None, None;
    }

    function View(): State
      reads this
    {
      State(sessions, active, returnsTo, current)
    }

    // ---- Reordering ----

    /** The slots a reorder of `ws` may use. */
    method WorkspaceReorderIndices(ws: Workspace) returns (indices: Slots)
      ensures indices == Where(sessions, Movable(ws))
    {
      indices := [];
      for i := 0 to |sessions|
        invariant indices == Where(sessions[..i], Movable(ws))
      {
        assert sessions[..i + 1][..i] == sessions[..i];
        if sessions[i].workspace == ws && sessions[i].pane.None? {
          indices := indices + [i];
        }
      }
      assert sessions[..|sessions|] == sessions;
    }

    method ReorderSessionWithinWorkspace(id: nat, position: nat)
      modifies this`sessions
      ensures sessions == Reordered(old(sessions), id, position)
    {
      var abs := Position(sessions, id);
      if abs.None? {
        return;
      }
      var indices := WorkspaceReorderIndices(sessions[abs.value].workspace);
      if abs.value !in indices {
        return;
      }
      var j := IndexOf(indices, abs.value);
      WalkIsInRange(sessions, indices, j, position);
      var swaps := WalkSwaps(indices, j, position);
      for i := 0 to |swaps|
        invariant |sessions| == |old(sessions)| && InRange(swaps[i..], |sessions|)
        invariant ApplySwaps(sessions, swaps[i..]) == ApplySwaps(old(sessions), swaps)
      {
        assert swaps[i] in swaps[i..] && swaps[i..][1..] == swaps[i + 1..];
        sessions := Swap(sessions, swaps[i].0, swaps[i].1);
      }
    }

    /** Change a session's workspace in place, repairing the active entries of
        both and following it with the view when it was on screen. */
    method MoveSessionToKey(id: nat, target: Workspace) returns (moved: bool)
      modifies this`sessions, this`active, this`current
      ensures var at := Position(old(sessions), id);
              moved == (at.Some? && Leaves(old(sessions)[at.value].kind))
              && View() == if moved then MovedTo(old(View()), at.value, target) else old(View())
    {
      var at := Position(sessions, id);
      if at.None? {
        return false;
      }
      var idx := at.value;
      match sessions[idx].kind
      case Scratchpad => return false;
      case Tasks => return false;
      case Diff => return false;
      case Shell =>
      var source := sessions[idx].workspace;
      if source == target {
        return true;
      }
      var wasActive := source in active && active[source] == id;
      var onScreen := wasActive && current == source;
      sessions := sessions[idx := sessions[idx].(workspace := target)];
      var next := CloseLanding(sessions, source, 0, false);
      var targetHasActive := target in active;
      if wasActive {
        if next.Some? {
          active := active[source := next.value];
        } else {
          active := active - {source};
        }
      }
      if onScreen || !targetHasActive {
        active := active[target := id];
      }
      if onScreen {
        current := target;
      }
      return true;
    }

    /** Apply a decided move: the workspace first, then the walk to its place. */
    method ApplySessionMove(id: nat, workspace: Workspace, position: nat) returns (landed: Option<Workspace>)
      modifies this`sessions, this`active, this`current
      ensures var at := Position(old(sessions), id);
              landed == (if at.None? || (old(sessions)[at.value].workspace != workspace && !Leaves(old(sessions)[at.value].kind))
                         then None else Some(workspace))
      ensures var at := Position(old(sessions), id);
              landed.Some? ==>
                sessions == Reordered(if old(sessions)[at.value].workspace == workspace then old(sessions)
                                      else MovedTo(old(View()), at.value, workspace).sessions, id, position)
      ensures landed.None? ==> View() == old(View())
      ensures landed.Some? && old(sessions)[Position(old(sessions), id).value].workspace == workspace ==>
                active == old(active) && current == old(current)
      ensures landed.Some? && old(sessions)[Position(old(sessions), id).value].workspace != workspace ==>
                var moved := MovedTo(old(View()), Position(old(sessions), id).value, workspace);
                active == moved.active && current == moved.current
    {
      var at := Position(sessions, id);
      if at.None? {
        return None;
      }
      if sessions[at.value].workspace != workspace {
        var moved := MoveSessionToKey(id, workspace);
        if !moved {
          return None;
        }
      }
      ReorderSessionWithinWorkspace(id, position);
      return Some(workspace);
    }

    method ApplySessionDrop(id: nat, workspace: Workspace, insertBefore: nat)
      modifies this`sessions, this`active, this`current
      ensures View() == DropState(old(View()), id, workspace, insertBefore)
    {
      var at := Position(sessions, id);
      if at.None? {
        return;
      }
      if sessions[at.value].pane.Some? {
        return;
      }
      var same := sessions[at.value].workspace == workspace;
      var indices := WorkspaceReorderIndices(workspace);
      var from := if at.value in indices then IndexOf(indices, at.value) else |indices|;
      var position := DropPosition(same, |indices|, from, insertBefore);
      if position.None? {
        return;
      }
      if same {
        ReorderSessionWithinWorkspace(id, position.value);
      } else {
        var _ := ApplySessionMove(id, workspace, position.value);
      }
    }

    // ---- Closing ----

    method MakeActive(ws: Workspace, id: nat)
      modifies this`active, this`returnsTo
      ensures View() == SetActive(old(View()), ws, id)
    {
      var previous := if ws in active then Some(active[ws]) else None;
      active := active[ws := id];
      if previous.None? || previous.value == id {
        return;
      }
      if TakesOver(sessions, id) {
        returnsTo := returnsTo[id := previous.value];
      }
    }

    /** Take `ids` out of the list, handing each active entry on. */
    method Remove(ids: seq<nat>, follows: bool, goesBack: bool)
      modifies this`sessions, this`active, this`returnsTo
      ensures View() == RemoveEach(old(View()), ids, follows, goesBack)
    {
      for i := 0 to |ids|
        invariant RemoveEach(View(), ids[i..], follows, goesBack) == RemoveEach(old(View()), ids, follows, goesBack)
      {
        assert ids[i..][1..] == ids[i + 1..];
        RemoveOneSession(ids[i], follows, goesBack);
      }
    }

    method RemoveOneSession(id: nat, follows: bool, goesBack: bool)
      modifies this`sessions, this`active, this`returnsTo
      ensures View() == RemoveOne(old(View()), id, follows, goesBack)
    {
      var at := Position(sessions, id);
      if at.None? {
        return;
      }
      var idx := at.value;
      var returned := ReturnTarget(View(), id, goesBack);
      returnsTo := returnsTo - {id};
      var workspace := sessions[idx].workspace;
      sessions := RemoveAt(sessions, idx);
      if workspace in active && active[workspace] == id {
        var next := returned;
        if next.None? {
          next := CloseLanding(sessions, workspace, idx, follows);
        }
        if next.Some? {
          active := active[workspace := next.value];
        } else {
          active := active - {workspace};
        }
      }
    }

    method SpawnSession(ws: Workspace, w: World)
      modifies this`sessions, this`active, this`returnsTo
      ensures View() == TrySpawn(old(View()), ws, w)
    {
      var spawned := w.spawns(ws);
      if spawned.Some? {
        sessions := sessions + [Session(ws, spawned.value, None, Shell)];
        MakeActive(ws, spawned.value);
      }
    }

    method EnsureActiveSession(w: World)
      modifies this`sessions, this`active, this`returnsTo
      ensures View() == EnsureActive(old(View()), w)
    {
      if HasActiveSession(View()) {
        return;
      }
      AdoptActiveSession(w.ranks);
      if HasActiveSession(View()) {
        return;
      }
      SpawnSession(current, w);
    }

    /** Re-attach to the first session drawn for the workspace on screen. */
    method AdoptActiveSession(ranks: Ranks)
      modifies this`active, this`returnsTo
      ensures forall w: World :: w.ranks == ranks ==> View() == Adopted(old(View()), w)
    {
      var indices := WorkspaceDisplayIndices(sessions, ranks, current);
      GatherWhere(sessions, InWorkspace(current));
      SortGather(Where(sessions, InWorkspace(current)), sessions, ranks);
      if indices != [] {
        MakeActive(current, sessions[indices[0]].id);
      }
    }

    method GoHome(w: World)
      modifies this`sessions, this`active, this`returnsTo, this`current
      ensures View() == ActivateHome(old(View()), w)
    {
      current := None;
      EnsureActiveSession(w);
    }

    method GoToWorktree(path: string, w: World)
      modifies this`sessions, this`active, this`returnsTo, this`current
      ensures View() == ActivateWorktree(old(View()), path, w)
    {
      if w.gone(path) && !Live(sessions, Some(path)) {
        return;
      }
      current := Some(path);
      EnsureActiveSession(w);
    }

    method GoToSession(id: nat)
      modifies this`sessions, this`active, this`returnsTo, this`current
      ensures View() == ActivateSessionById(old(View()), id)
    {
      var at := Position(sessions, id);
      if at.None? {
        return;
      }
      current := sessions[at.value].workspace;
      MakeActive(current, id);
    }

    method ApplyCloseFallback(verdict: Verdict, w: World)
      modifies this`sessions, this`active, this`returnsTo, this`current
      ensures View() == ApplyVerdict(old(View()), verdict, w)
    {
      match verdict
      case Stay =>
      case Activate(main) => GoToWorktree(main, w);
      case ActivateSession(id) => GoToSession(id);
      case Home => GoHome(w);
    }

    /** Close sessions of one workspace: remove them, take a cursor on a tab that
        returns to another there, then respawn, move the view or put that off, as
        policy and reason have it. */
    method CloseSessions(ids: seq<nat>, workspace: Workspace, reason: Reason, cfg: Config, w: World)
      modifies this`sessions, this`active, this`returnsTo, this`current, this`deferredClose, this`cursor
      ensures var closed := Closed(old(View()), ids, workspace, reason, cfg, w);
              View() == closed.0
              && deferredClose == if closed.1.Some? then closed.1 else old(deferredClose)
      ensures cursor == PinnedCursor(old(View()), old(cursor), ids, cfg.goesBack)
    {
      ghost var before := View();
      var ring := if cfg.policy.Rings() then RingOf(sessions, w.ranks, w.order) else [];
      var back: Option<nat> := None;
      match cursor {
        case Some(SessionRow(id)) =>
          if id in ids {
            back := ReturnTarget(View(), id, cfg.goesBack);
          }
        case _ =>
      }
      Remove(ids, cfg.follows, cfg.goesBack);
      if back.Some? {
        cursor := Some(Row.SessionRow(back.value));
      }
      SettleTheView(before, ring, ids, workspace, reason, cfg, w);
    }

    /** Where the view goes once they are removed. */
    method SettleTheView(ghost before: State, ring: Ring, ids: seq<nat>, workspace: Workspace, reason: Reason, cfg: Config, w: World)
      requires View() == RemoveEach(before, ids, cfg.follows, cfg.goesBack)
      requires cfg.policy.Rings() ==> ring == RingOf(before.sessions, w.ranks, w.order)
      modifies this`sessions, this`active, this`returnsTo, this`current, this`deferredClose
      ensures var closed := Closed(before, ids, workspace, reason, cfg, w);
              View() == closed.0
              && deferredClose == if closed.1.Some? then closed.1 else old(deferredClose)
    {
      var deleted := reason.WorktreeDeleted?;
      var main := if deleted || workspace.None? then None else w.main;
      var verdict := CloseNavigation(reason, CloseFallback(workspace, current, sessions, main));
      if !verdict.Stay? && cfg.policy.Rings() {
        var prefer := if cfg.policy.RingProject? then w.project else None;
        var landing := RingLanding(ring, ids, prefer);
        if landing.Some? {
          verdict := ActivateSession(landing.value.1);
        }
      }
      assert verdict == VerdictOf(before, sessions, ids, workspace, reason, cfg, w) by {
        RemovalKeepsTheView(before, ids, cfg);
      }
      if !verdict.Stay? && cfg.policy.Respawn? && !deleted {
        SpawnSession(workspace, w);
        return;
      }
      if cfg.follows && !verdict.Stay? {
        deferredClose := Some(verdict);
        return;
      }
      ApplyCloseFallback(verdict, w);
    }

    /** One pass over the trees before and after: an anchor the user has navigated
        away from is dropped; then, if the rows changed or a verdict was deferred,
        the cursor is repaired, and under follow the terminal goes to the row it
        landed on, or else to the deferred verdict. */
    method Reconcile(prev: Tree, next: Tree, changed: bool, follows: bool, w: World)
      requires prev.Valid() && next.Valid()
      modifies this
      ensures deferredClose.None?
      ensures var kept := if Overtaken(old(written), old(cursor), old(current), Active(old(View()), old(current))) then None else old(anchor);
              if old(deferredClose).None? && !changed then
                View() == old(View()) && cursor == old(cursor) && anchor == kept && written == old(written)
              else
                var r := Repair(prev, next, old(cursor), kept);
                && cursor == r.cursor && anchor == r.anchor
                && View() == Reconciled(old(View()), old(deferredClose), follows, r.follow, w)
                && written == Some(FocusWrite(cursor, current, Active(View(), current)))
    {
      if Overtaken(written, cursor, current, Active(View(), current)) {
        anchor := None;
      }
      var deferred := deferredClose;
      deferredClose := None;
      if deferred.None? && !changed {
        return;
      }
      var r := Repair(prev, next, cursor, anchor);
      cursor, anchor := r.cursor, r.anchor;
      if follows {
        match r.follow
        case Some(target) => FollowTo(target);
        case None =>
          if deferred.Some? {
            ApplyCloseFallback(deferred.value, w);
          }
      }
      written := Some(FocusWrite(cursor, current, Active(View(), current)));
    }

    method FollowTo(target: FollowTarget)
      modifies this`sessions, this`active, this`returnsTo, this`current
      ensures View() == ApplyFollowTarget(old(View()), target)
    {
      match target
      case ToSession(id) => GoToSession(id);
      case ToWorkspace(ws) =>
        var id := if ws in active && Position(sessions, active[ws]).Some? then Some(active[ws]) else FirstOf(sessions, ws);
        if id.Some? {
          GoToSession(id.value);
        }
    }
  }

  lemma {:induction false} RemovalKeepsTheView(s: State, ids: seq<nat>, cfg: Config)
    ensures RemoveEach(s, ids, cfg.follows, cfg.goesBack).current == s.current
    decreases |ids|
  {
    if ids != [] {
      RemovalKeepsTheView(RemoveOne(s, ids[0], cfg.follows, cfg.goesBack), ids[1..], cfg);
    }
  }
}
