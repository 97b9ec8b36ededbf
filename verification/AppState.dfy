/** The sessions, each workspace's active one, and the workspace on screen; and
    what closing and moving sessions does to them. */
module AppState {
  import opened CloseLandings
  import opened Options
  import opened Seqs
  import opened Sessions

  datatype State = State(
    sessions: seq<Session>,
    active: map<Workspace, nat>,
    returnsTo: map<nat, nat>,
    current: Workspace)

  predicate Holds(sessions: seq<Session>, ws: Workspace, id: nat) {
    exists i :: 0 <= i < |sessions| && sessions[i].workspace == ws && sessions[i].id == id
  }

  predicate Live(sessions: seq<Session>, ws: Workspace) {
    exists i :: 0 <= i < |sessions| && sessions[i].workspace == ws
  }

  /** Ids are distinct, every active entry names an open session of its own
      workspace, and no tab returns to itself. */
  ghost predicate Consistent(s: State) {
    && DistinctIds(s.sessions)
    && (forall ws :: ws in s.active ==> Holds(s.sessions, ws, s.active[ws]))
    && (forall k :: k in s.returnsTo ==> s.returnsTo[k] != k)
  }

  function Active(s: State, ws: Workspace): Option<nat> {
    if ws in s.active then Some(s.active[ws]) else None
  }

  predicate TakesOver(sessions: seq<Session>, id: nat) {
    exists i :: 0 <= i < |sessions| && sessions[i].id == id && (sessions[i].kind.Scratchpad? || sessions[i].kind.Tasks?)
  }

  function SetActive(s: State, ws: Workspace, id: nat): State {
    var previous := Active(s, ws);
    var after := s.(active := s.active[ws := id]);
    if previous.None? || previous.value == id || !TakesOver(s.sessions, id) then after
    else after.(returnsTo := after.returnsTo[id := previous.value])
  }

  /** The tab an active tab took over from, if that is open and going back is
      wanted. */
  function ReturnTarget(s: State, id: nat, enabled: bool): Option<nat> {
    if !enabled then None
    else
      match Position(s.sessions, id)
      case None => None
      case Some(i) =>
        var ws := s.sessions[i].workspace;
        if Active(s, ws) != Some(id) || id !in s.returnsTo || !Holds(s.sessions, ws, s.returnsTo[id]) then None
        else Some(s.returnsTo[id])
  }

  /** Take one session out and hand its active entry on. */
  function RemoveOne(s: State, id: nat, follows: bool, goesBack: bool): State {
    match Position(s.sessions, id)
    case None => s
    case Some(idx) =>
      var ws := s.sessions[idx].workspace;
      var returned := ReturnTarget(s, id, goesBack);
      var left := RemoveAt(s.sessions, idx);
      var next := if returned.Some? then returned else SiblingAfter(left, ws, idx, follows);
      var active :=
        if Active(s, ws) != Some(id) then s.active
        else if next.Some? then s.active[ws := next.value]
        else s.active - {ws};
      State(left, active, s.returnsTo - {id}, s.current)
  }

  function RemoveEach(s: State, ids: seq<nat>, follows: bool, goesBack: bool): State
    decreases |ids|
  {
    if ids == [] then s else RemoveEach(RemoveOne(s, ids[0], follows, goesBack), ids[1..], follows, goesBack)
  }

  // ---- Moving ----

  function FirstOf(sessions: seq<Session>, ws: Workspace): Option<nat> {
    IdAt(sessions, FirstIn(sessions, ws, 0))
  }

  /** Re-home the session at `idx`, repairing both workspaces' active entries and
      following it with the view when it was the one on screen. */
  function MovedTo(s: State, idx: nat, target: Workspace): State
    requires idx < |s.sessions|
  {
    var id, source := s.sessions[idx].id, s.sessions[idx].workspace;
    if source == target then s
    else
      var wasActive := Active(s, source) == Some(id);
      var onScreen := wasActive && s.current == source;
      var sessions := s.sessions[idx := s.sessions[idx].(workspace := target)];
      var next := FirstOf(sessions, source);
      var repaired :=
        if !wasActive then s.active
        else if next.Some? then s.active[source := next.value]
        else s.active - {source};
      var active := if onScreen || target !in s.active then repaired[target := id] else repaired;
      State(sessions, active, s.returnsTo, if onScreen then target else s.current)
  }

  /** A drop reorders the list; when it also changes the session's workspace, the
      active entries and the view follow as for any move. */
  function DropState(s: State, id: nat, ws: Workspace, insertBefore: nat): State {
    var dropped := Dropped(s.sessions, id, ws, insertBefore);
    match Position(s.sessions, id)
    case None => s
    case Some(abs) =>
      var x := s.sessions[abs];
      if x.pane.Some? || x.workspace == ws || !Leaves(x.kind) then s.(sessions := dropped)
      else MovedTo(s, abs, ws).(sessions := dropped)
  }

  // ---- Removal keeps the active entries live ----

  lemma HoldsAfterRemoval(sessions: seq<Session>, idx: nat, ws: Workspace, id: nat)
    requires DistinctIds(sessions) && idx < |sessions|
    ensures Holds(RemoveAt(sessions, idx), ws, id) <==> Holds(sessions, ws, id) && id != sessions[idx].id
  {
    var left := RemoveAt(sessions, idx);
    if Holds(sessions, ws, id) && id != sessions[idx].id {
      var i :| 0 <= i < |sessions| && sessions[i].workspace == ws && sessions[i].id == id;
      assert left[if i < idx then i else i - 1] == sessions[i];
    }
    if Holds(left, ws, id) {
      var i :| 0 <= i < |left| && left[i].workspace == ws && left[i].id == id;
      assert sessions[if i < idx then i else i + 1] == left[i];
    }
  }

  lemma RemovalKeepsDistinctIds(sessions: seq<Session>, idx: nat)
    requires DistinctIds(sessions) && idx < |sessions|
    ensures DistinctIds(RemoveAt(sessions, idx))
  {}

  lemma FirstInIsFound(sessions: seq<Session>, ws: Workspace, i: nat)
    requires i <= |sessions|
    ensures FirstIn(sessions, ws, i).None? ==> forall k :: i <= k < |sessions| ==> sessions[k].workspace != ws
    decreases |sessions| - i
  {
    if i < |sessions| {
      FirstInIsFound(sessions, ws, i + 1);
    }
  }

  lemma SiblingIsHeld(sessions: seq<Session>, ws: Workspace, idx: nat, follows: bool)
    requires idx <= |sessions|
    ensures var r := SiblingAfter(sessions, ws, idx, follows); r.Some? ==> Holds(sessions, ws, r.value)
  {}

  lemma OneHomePerSession(sessions: seq<Session>, a: Workspace, b: Workspace, id: nat)
    requires DistinctIds(sessions) && Holds(sessions, a, id) && Holds(sessions, b, id)
    ensures a == b
  {
    var i :| 0 <= i < |sessions| && sessions[i].workspace == a && sessions[i].id == id;
    var j :| 0 <= j < |sessions| && sessions[j].workspace == b && sessions[j].id == id;
    assert i == j;
  }

  /** Removing a session takes exactly it away, and leaves every workspace's
      active entry on a session that is still open in that workspace. */
  lemma RemoveOneIsConsistent(s: State, id: nat, follows: bool, goesBack: bool)
    requires Consistent(s)
    ensures Consistent(RemoveOne(s, id, follows, goesBack))
    ensures forall ws, k :: Holds(RemoveOne(s, id, follows, goesBack).sessions, ws, k) <==> Holds(s.sessions, ws, k) && k != id
  {
    match Position(s.sessions, id)
    case None =>
    case Some(idx) =>
      var after, ws := RemoveOne(s, id, follows, goesBack), s.sessions[idx].workspace;
      RemovalKeepsDistinctIds(s.sessions, idx);
      forall w, k
        ensures Holds(after.sessions, w, k) <==> Holds(s.sessions, w, k) && k != id
      {
        HoldsAfterRemoval(s.sessions, idx, w, k);
      }
      SiblingIsHeld(after.sessions, ws, idx, follows);
      assert Holds(s.sessions, ws, id);
      forall w | w in after.active
        ensures Holds(after.sessions, w, after.active[w])
      {
        if w != ws && s.active[w] == id {
          OneHomePerSession(s.sessions, w, ws, id);
        }
      }
  }

  /** The first session of a workspace, in list order. */
  function HeadId(sessions: seq<Session>, ws: Workspace): Option<nat> {
    var own := Filter(sessions, InWorkspace(ws));
    if own == [] then None else Some(own[0].id)
  }

  /** Removing a session changes no other workspace's active entry, nor its own
      when another tab was active; otherwise the entry goes to the tab it took
      over from, when returning is on and that is still open; else, under
      follow, to the session that a ring of its own list lands on, and to the
      first row left when not. */
  lemma RemovalHandsOver(s: State, id: nat, idx: nat, follows: bool, goesBack: bool, project: Option<string>)
    requires Consistent(s) && Position(s.sessions, id) == Some(idx)
    ensures var ws, after := s.sessions[idx].workspace, RemoveOne(s, id, follows, goesBack);
            && (forall v :: v != ws || Active(s, ws) != Some(id) ==> Active(after, v) == Active(s, v))
            && (Active(s, ws) == Some(id) ==>
                  var back := ReturnTarget(s, id, goesBack);
                  Active(after, ws)
                  == if back.Some? then back
                     else if !follows then HeadId(after.sessions, ws)
                     else LandingId(Entries(Filter(s.sessions, InWorkspace(ws)), project), id))
  {
    var ws, after := s.sessions[idx].workspace, RemoveOne(s, id, follows, goesBack);
    if Active(s, ws) == Some(id) {
      var back := ReturnTarget(s, id, goesBack);
      SiblingIsTheLanding(s.sessions, idx, follows, project);
      assert Active(after, ws) == if back.Some? then back else SiblingAfter(after.sessions, ws, idx, follows);
    }
  }

  lemma SiblingIsTheLanding(sessions: seq<Session>, idx: nat, follows: bool, project: Option<string>)
    requires DistinctIds(sessions) && idx < |sessions|
    ensures var ws, left := sessions[idx].workspace, RemoveAt(sessions, idx);
            SiblingAfter(left, ws, idx, follows)
            == if !follows then HeadId(left, ws)
               else LandingId(Entries(Filter(sessions, InWorkspace(ws)), project), sessions[idx].id)
  {
    var ws, left := sessions[idx].workspace, RemoveAt(sessions, idx);
    if follows {
      CloseLandingMatchesTheRing(sessions, idx, project);
    } else {
      FirstInIsHead(left, ws, 0);
      assert left[0..] == left;
    }
  }

  lemma {:induction false} RemoveEachIsConsistent(s: State, ids: seq<nat>, follows: bool, goesBack: bool)
    requires Consistent(s)
    ensures Consistent(RemoveEach(s, ids, follows, goesBack))
    ensures RemoveEach(s, ids, follows, goesBack).current == s.current
    ensures forall ws, k :: Holds(RemoveEach(s, ids, follows, goesBack).sessions, ws, k)
                            <==> Holds(s.sessions, ws, k) && k !in ids
    decreases |ids|
  {
    if ids != [] {
      RemoveOneIsConsistent(s, ids[0], follows, goesBack);
      RemoveEachIsConsistent(RemoveOne(s, ids[0], follows, goesBack), ids[1..], follows, goesBack);
      assert ids == [ids[0]] + ids[1..];
    }
  }

  /** Several are removed one after the other, in the order given. */
  lemma {:induction false} RemovedInOrder(s: State, ids: seq<nat>, last: nat, follows: bool, goesBack: bool)
    ensures RemoveEach(s, ids + [last], follows, goesBack)
         == RemoveOne(RemoveEach(s, ids, follows, goesBack), last, follows, goesBack)
    decreases |ids|
  {
    if ids == [] {
      assert [last][1..] == [] && [] + [last] == [last];
    } else {
      assert (ids + [last])[1..] == ids[1..] + [last];
      RemovedInOrder(RemoveOne(s, ids[0], follows, goesBack), ids[1..], last, follows, goesBack);
    }
  }

  lemma SetActiveIsConsistent(s: State, ws: Workspace, id: nat)
    requires Consistent(s) && Holds(s.sessions, ws, id)
    ensures Consistent(SetActive(s, ws, id))
  {}

  /** Re-homing a session keeps every active entry on an open session, and moves
      no other session. */
  lemma MovedToIsConsistent(s: State, idx: nat, target: Workspace)
    requires Consistent(s) && idx < |s.sessions|
    ensures Consistent(MovedTo(s, idx, target))
    ensures Holds(MovedTo(s, idx, target).sessions, target, s.sessions[idx].id)
    ensures Active(s, s.sessions[idx].workspace) == Some(s.sessions[idx].id) && s.current == s.sessions[idx].workspace ==>
              MovedTo(s, idx, target).current == target
              && Active(MovedTo(s, idx, target), target) == Some(s.sessions[idx].id)
  {
    var after, id, source := MovedTo(s, idx, target), s.sessions[idx].id, s.sessions[idx].workspace;
    assert Holds(s.sessions, source, id);
    if source != target {
      assert after.sessions[idx].workspace == target && after.sessions[idx].id == id;
      forall w, k | Holds(s.sessions, w, k) && k != id
        ensures Holds(after.sessions, w, k)
      {
        var i :| 0 <= i < |s.sessions| && s.sessions[i].workspace == w && s.sessions[i].id == k;
        assert after.sessions[i] == s.sessions[i];
      }
      SiblingIsHeld(after.sessions, source, 0, false);
      forall w | w in after.active
        ensures Holds(after.sessions, w, after.active[w])
      {
        if w in s.active && s.active[w] == id {
          OneHomePerSession(s.sessions, w, source, id);
        }
      }
    }
  }

  /** A move to another workspace: the one it leaves falls back to its first row
      if the session was active there, the one it joins shows it if it showed
      nothing or the user was watching, and no third entry changes. */
  lemma MoveRepairsEntries(s: State, idx: nat, target: Workspace)
    requires Consistent(s) && idx < |s.sessions| && s.sessions[idx].workspace != target
    ensures var id, source, after := s.sessions[idx].id, s.sessions[idx].workspace, MovedTo(s, idx, target);
            var watched := Active(s, source) == Some(id) && s.current == source;
            && Active(after, source)
               == (if Active(s, source) == Some(id) then HeadId(after.sessions, source) else Active(s, source))
            && Active(after, target)
               == (if watched || Active(s, target).None? then Some(id) else Active(s, target))
            && (forall v :: v != source && v != target ==> Active(after, v) == Active(s, v))
            && after.current == (if watched then target else s.current)
  {
    var source, after := s.sessions[idx].workspace, MovedTo(s, idx, target);
    FirstInIsHead(s.sessions, source, 0);
    FirstInIsHead(after.sessions, source, 0);
    assert after.sessions[0..] == after.sessions;
  }

  /** Permuting the list keeps who is where. */
  lemma PermutingIsConsistent(s: State, sessions: seq<Session>)
    requires Consistent(s) && multiset(sessions) == multiset(s.sessions)
    ensures Consistent(s.(sessions := sessions))
    ensures forall ws, id :: Holds(sessions, ws, id) <==> Holds(s.sessions, ws, id)
  {
    SameElements(s.sessions, sessions);
    IdsApart(s.sessions, sessions);
    forall ws, id
      ensures Holds(sessions, ws, id) <==> Holds(s.sessions, ws, id)
    {
      HeldIsIn(sessions, ws, id);
      HeldIsIn(s.sessions, ws, id);
    }
  }

  lemma HeldIsIn(sessions: seq<Session>, ws: Workspace, id: nat)
    ensures Holds(sessions, ws, id) <==> exists x :: x in sessions && x.workspace == ws && x.id == id
  {
    if x :| x in sessions && x.workspace == ws && x.id == id {
      var i := IndexIn(sessions, x);
    }
  }

  lemma IdsApart(s: seq<Session>, t: seq<Session>)
    requires DistinctIds(s) && multiset(s) == multiset(t)
    ensures DistinctIds(t)
  {
    SameElements(s, t);
    DistinctFromMultiset(s, t);
    forall i, j | 0 <= i < j < |t|
      ensures t[i].id != t[j].id
    {
      assert t[i] in t && t[j] in t;
      var k := IndexIn(s, t[i]);
      var l := IndexIn(s, t[j]);
    }
  }

  lemma ReorderPermutes(sessions: seq<Session>, id: nat, position: nat)
    requires DistinctIds(sessions)
    ensures multiset(Reordered(sessions, id, position)) == multiset(sessions)
  {
    match Position(sessions, id)
    case None =>
    case Some(abs) =>
      if sessions[abs].pane.None? {
        var _, _ := ReorderMovesOneRow(sessions, id, position, abs);
      }
  }

  lemma WithinIsConsistent(s: State, id: nat, ws: Workspace, insertBefore: nat, abs: nat)
    requires Consistent(s) && Position(s.sessions, id) == Some(abs)
    requires s.sessions[abs].pane.None? && s.sessions[abs].workspace == ws
    ensures Consistent(s.(sessions := Dropped(s.sessions, id, ws, insertBefore)))
  {
    var indices := Where(s.sessions, Movable(ws));
    var from := if abs in indices then IndexOf(indices, abs) else |indices|;
    match MoveTarget(|indices|, from, insertBefore)
    case None =>
      assert Dropped(s.sessions, id, ws, insertBefore) == s.sessions;
    case Some(position) =>
      assert Dropped(s.sessions, id, ws, insertBefore) == Reordered(s.sessions, id, position);
      ReorderPermutes(s.sessions, id, position);
      PermutingIsConsistent(s, Reordered(s.sessions, id, position));
  }

  lemma AcrossIsConsistent(s: State, id: nat, ws: Workspace, insertBefore: nat, abs: nat)
    requires Consistent(s) && Position(s.sessions, id) == Some(abs)
    requires s.sessions[abs].pane.None? && s.sessions[abs].workspace != ws && Leaves(s.sessions[abs].kind)
    ensures Consistent(MovedTo(s, abs, ws).(sessions := Dropped(s.sessions, id, ws, insertBefore)))
  {
    var moved := MovedTo(s, abs, ws);
    assert Dropped(s.sessions, id, ws, insertBefore) == Reordered(moved.sessions, id, insertBefore);
    MovedToIsConsistent(s, abs, ws);
    ReorderPermutes(moved.sessions, id, insertBefore);
    PermutingIsConsistent(moved, Reordered(moved.sessions, id, insertBefore));
  }

  /** A drop changes the state only where the session may go: one attached to a pane
      goes nowhere, and only a shell leaves its workspace, as any move does. */
  lemma DropMovesWhatMayGo(s: State, id: nat, abs: nat, ws: Workspace, insertBefore: nat)
    requires Consistent(s) && abs < |s.sessions| && s.sessions[abs].id == id
    ensures var x, after := s.sessions[abs], DropState(s, id, ws, insertBefore);
            if x.pane.Some? || (x.workspace != ws && x.kind != Shell) then after == s
            else if x.workspace == ws then after == s.(sessions := after.sessions)
            else after == MovedTo(s, abs, ws).(sessions := after.sessions)
                 && Holds(after.sessions, ws, id) && !Holds(after.sessions, x.workspace, id)
  {
    assert Position(s.sessions, id) == Some(abs);
    var x := s.sessions[abs];
    if x.pane.None? && x.workspace != ws && x.kind == Shell {
      DroppedShellIsHeld(s, id, abs, ws, insertBefore);
    }
  }

  lemma DroppedShellIsHeld(s: State, id: nat, abs: nat, ws: Workspace, insertBefore: nat)
    requires Consistent(s) && Position(s.sessions, id) == Some(abs)
    requires s.sessions[abs].pane.None? && s.sessions[abs].workspace != ws && s.sessions[abs].kind == Shell
    ensures var after := DropState(s, id, ws, insertBefore);
            Holds(after.sessions, ws, id) && !Holds(after.sessions, s.sessions[abs].workspace, id)
  {
    var moved := MovedTo(s, abs, ws);
    MovedToIsConsistent(s, abs, ws);
    ReorderPermutes(moved.sessions, id, insertBefore);
    PermutingIsConsistent(moved, Reordered(moved.sessions, id, insertBefore));
    assert Dropped(s.sessions, id, ws, insertBefore) == Reordered(moved.sessions, id, insertBefore);
    if Holds(moved.sessions, s.sessions[abs].workspace, id) {
      OneHomePerSession(moved.sessions, s.sessions[abs].workspace, ws, id);
    }
  }

  /** Whatever is dropped wherever, every workspace's active entry still names an
      open session of that workspace. */
  lemma DropIsConsistent(s: State, id: nat, ws: Workspace, insertBefore: nat)
    requires Consistent(s)
    ensures Consistent(DropState(s, id, ws, insertBefore))
  {
    match Position(s.sessions, id)
    case None =>
    case Some(abs) =>
      if s.sessions[abs].pane.None? {
        if s.sessions[abs].workspace == ws {
          WithinIsConsistent(s, id, ws, insertBefore, abs);
        } else if Leaves(s.sessions[abs].kind) {
          AcrossIsConsistent(s, id, ws, insertBefore, abs);
        }
      }
  }
}
