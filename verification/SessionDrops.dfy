/** What a drop does to every workspace's rows. */
module SessionDrops {
  import opened Options
  import opened Seqs
  import opened Sessions
  import opened Walks

  lemma {:induction false} FilterFrame<T>(s: seq<T>, t: seq<T>, p: T -> bool)
    requires |s| == |t|
    requires forall i :: 0 <= i < |s| ==> (p(s[i]) <==> p(t[i])) && (p(s[i]) ==> s[i] == t[i])
    ensures Filter(s, p) == Filter(t, p)
  {
    if s != [] {
      FilterFrame(s[1..], t[1..], p);
    }
  }

  /** Reordering one workspace's rows leaves every other workspace's alone. */
  lemma OtherRowsStay(sessions: seq<Session>, after: seq<Session>, ws: Workspace, from: nat, to: nat, other: Workspace)
    requires MovesOne(sessions, after, Movable(ws), from, to) && other != ws
    ensures Rows(after, other) == Rows(sessions, other)
  {
    forall i | 0 <= i < |sessions|
      ensures Movable(other)(sessions[i]) <==> Movable(other)(after[i])
      ensures Movable(other)(sessions[i]) ==> sessions[i] == after[i]
    {
      assert Movable(ws)(after[i]) <==> Movable(ws)(sessions[i]);
    }
    FilterFrame(sessions, after, Movable(other));
  }

  lemma AllOtherRowsStay(sessions: seq<Session>, after: seq<Session>, ws: Workspace, from: nat, to: nat)
    requires MovesOne(sessions, after, Movable(ws), from, to)
    ensures forall other :: other != ws ==> Rows(after, other) == Rows(sessions, other)
  {
    forall other | other != ws
      ensures Rows(after, other) == Rows(sessions, other)
    {
      OtherRowsStay(sessions, after, ws, from, to, other);
    }
  }

  /** A drop inside the session's own workspace puts its row immediately before
      the row it was dropped on, or last; nothing happens exactly when it
      already stands there; and no slot outside the workspace's rows changes. */
  lemma DropWithinAWorkspace(sessions: seq<Session>, id: nat, abs: nat, insertBefore: nat) returns (from: nat)
    requires DistinctIds(sessions) && abs < |sessions| && sessions[abs].id == id && sessions[abs].pane.None?
    ensures var ws := sessions[abs].workspace;
            var rows, after := Rows(sessions, ws), Dropped(sessions, id, ws, insertBefore);
            && from < |rows| && rows[from] == sessions[abs]
            && Rows(after, ws) == PutBefore(rows, from, insertBefore)
            && (after == sessions <==> PutBefore(rows, from, insertBefore) == rows)
            && |after| == |sessions| && multiset(after) == multiset(sessions)
            && (forall i :: 0 <= i < |sessions| && (sessions[i].workspace != ws || sessions[i].pane.Some?) ==>
                  after[i] == sessions[i])
            && (forall other :: other != ws ==> Rows(after, other) == Rows(sessions, other))
  {
    var ws := sessions[abs].workspace;
    var rows, after := Rows(sessions, ws), Dropped(sessions, id, ws, insertBefore);
    assert Position(sessions, id) == Some(abs);
    GatherWhere(sessions, Movable(ws));
    RowsAreDistinct(sessions, ws);
    var to0;
    from, to0 := ReorderMovesOneRow(sessions, id, 0, abs);
    MoveTargetPutsBefore(rows, from, insertBefore);
    match MoveTarget(|rows|, from, insertBefore)
    case None =>
      assert after == sessions;
    case Some(position) =>
      assert after == Reordered(sessions, id, position);
      var f, to := ReorderMovesOneRow(sessions, id, position, abs);
      AllOtherRowsStay(sessions, after, ws, f, to);
  }

  function Rehomed(sessions: seq<Session>, abs: nat, ws: Workspace): seq<Session>
    requires abs < |sessions|
  {
    sessions[abs := sessions[abs].(workspace := ws)]
  }

  /** Changing one session's workspace in place, before any walking. */
  lemma RehomeRows(sessions: seq<Session>, abs: nat, ws: Workspace)
    requires DistinctIds(sessions) && abs < |sessions| && sessions[abs].pane.None? && sessions[abs].workspace != ws
    ensures var x, moved := sessions[abs], Rehomed(sessions, abs, ws);
            var k, f := |Filter(sessions[..abs], Movable(ws))|, |Filter(sessions[..abs], Movable(x.workspace))|;
            && DistinctIds(moved)
            && k <= |Rows(sessions, ws)| && Rows(moved, ws) == InsertAt(Rows(sessions, ws), k, moved[abs])
            && f < |Rows(sessions, x.workspace)| && Rows(sessions, x.workspace)[f] == x
            && Rows(moved, x.workspace) == RemoveAt(Rows(sessions, x.workspace), f)
            && (forall other :: other != ws && other != x.workspace ==> Rows(moved, other) == Rows(sessions, other))
  {
    var x, moved := sessions[abs], Rehomed(sessions, abs, ws);
    forall w: Workspace
      ensures Rows(sessions, w) == Around(sessions, abs, w, if w == x.workspace then [x] else [])
      ensures Rows(moved, w) == Around(sessions, abs, w, if w == ws then [moved[abs]] else [])
    {
      RowsAround(sessions, abs, ws, w);
    }
    var before, behind := Filter(sessions[..abs], Movable(x.workspace)), Filter(sessions[abs + 1..], Movable(x.workspace));
    assert before + [] + behind == before + behind;
    forall other | other != ws && other != x.workspace
      ensures Rows(moved, other) == Rows(sessions, other)
    {}
  }

  /** A workspace's rows before and behind one slot, with these between. */
  function Around(sessions: seq<Session>, abs: nat, w: Workspace, between: seq<Session>): seq<Session>
    requires abs < |sessions|
  {
    Filter(sessions[..abs], Movable(w)) + between + Filter(sessions[abs + 1..], Movable(w))
  }

  lemma RowsAround(sessions: seq<Session>, abs: nat, ws: Workspace, w: Workspace)
    requires abs < |sessions| && sessions[abs].pane.None?
    ensures var x, moved := sessions[abs], Rehomed(sessions, abs, ws);
            && Rows(sessions, w) == Around(sessions, abs, w, if w == x.workspace then [x] else [])
            && Rows(moved, w) == Around(sessions, abs, w, if w == ws then [moved[abs]] else [])
  {
    var moved := Rehomed(sessions, abs, ws);
    assert moved[..abs] == sessions[..abs] && moved[abs + 1..] == sessions[abs + 1..];
    FilterAt(sessions, abs, Movable(w));
    FilterAt(moved, abs, Movable(w));
  }

  lemma MoveAfterInsert<T>(rows: seq<T>, k: nat, x: T, to: nat)
    requires k <= |rows| && to <= |rows|
    ensures Move(InsertAt(rows, k, x), k, to) == InsertAt(rows, to, x)
  {
    assert RemoveAt(InsertAt(rows, k, x), k) == rows;
  }

  /** A drop into another workspace inserts the session right before the row it
      was dropped on there, or last, takes its row out of the workspace it left,
      and changes no third workspace. */
  lemma DropAcrossWorkspaces(sessions: seq<Session>, id: nat, abs: nat, ws: Workspace, insertBefore: nat)
    returns (from: nat)
    requires DistinctIds(sessions) && abs < |sessions| && sessions[abs].id == id && sessions[abs].pane.None?
    requires sessions[abs].workspace != ws && sessions[abs].kind == Shell
    ensures var x, after := sessions[abs], Dropped(sessions, id, ws, insertBefore);
            var target, source := Rows(sessions, ws), Rows(sessions, x.workspace);
            && Rows(after, ws)
               == InsertAt(target, if insertBefore < |target| then insertBefore else |target|, x.(workspace := ws))
            && from < |source| && source[from] == x && Rows(after, x.workspace) == RemoveAt(source, from)
            && (forall other :: other != ws && other != x.workspace ==> Rows(after, other) == Rows(sessions, other))
            && |after| == |sessions|
  {
    var x, moved := sessions[abs], Rehomed(sessions, abs, ws);
    DropRehomes(sessions, id, abs, ws, insertBefore);
    RehomeRows(sessions, abs, ws);
    from := |Filter(sessions[..abs], Movable(x.workspace))|;
    WalksAmong(moved, id, abs, Rows(sessions, ws), |Filter(sessions[..abs], Movable(ws))|, insertBefore);
  }

  /** A session put among the rows at k and then walked is inserted where it was
      walked to. */
  lemma WalksAmong(moved: seq<Session>, id: nat, abs: nat, target: seq<Session>, k: nat, position: nat)
    requires DistinctIds(moved) && abs < |moved| && moved[abs].id == id && moved[abs].pane.None?
    requires k <= |target| && Rows(moved, moved[abs].workspace) == InsertAt(target, k, moved[abs])
    ensures var ws, after := moved[abs].workspace, Reordered(moved, id, position);
            && Rows(after, ws) == InsertAt(target, if position < |target| then position else |target|, moved[abs])
            && (forall other :: other != ws ==> Rows(after, other) == Rows(moved, other))
            && |after| == |moved|
  {
    var ws, after := moved[abs].workspace, Reordered(moved, id, position);
    var f, to := ReorderMovesOneRow(moved, id, position, abs);
    RowsAreDistinct(moved, ws);
    MovedFrom(Rows(moved, ws), target, k, moved[abs], f, to);
    AllOtherRowsStay(moved, after, ws, f, to);
  }

  lemma MovedFrom<T>(rows: seq<T>, target: seq<T>, k: nat, x: T, from: nat, to: nat)
    requires Distinct(rows) && k <= |target| && rows == InsertAt(target, k, x) && from < |rows| && rows[from] == x && to < |rows|
    ensures Move(rows, from, to) == InsertAt(target, to, x)
  {
    assert rows[k] == x;
    SamePlace(rows, from, k);
    MoveAfterInsert(target, k, x, to);
  }

  lemma DropRehomes(sessions: seq<Session>, id: nat, abs: nat, ws: Workspace, insertBefore: nat)
    requires DistinctIds(sessions) && abs < |sessions| && sessions[abs].id == id && sessions[abs].pane.None?
    requires sessions[abs].workspace != ws && sessions[abs].kind == Shell
    ensures Dropped(sessions, id, ws, insertBefore) == Reordered(Rehomed(sessions, abs, ws), id, insertBefore)
  {
    assert Position(sessions, id) == Some(abs);
  }

  /** A session attached to a pane is not dropped anywhere, nor is a scratchpad, a
      tasks tab or a diff into another workspace. */
  lemma OthersAreNotDropped(sessions: seq<Session>, id: nat, abs: nat, ws: Workspace, insertBefore: nat)
    requires DistinctIds(sessions) && abs < |sessions| && sessions[abs].id == id
    requires sessions[abs].pane.Some? || (sessions[abs].workspace != ws && sessions[abs].kind != Shell)
    ensures Dropped(sessions, id, ws, insertBefore) == sessions
  {
    assert Position(sessions, id) == Some(abs);
  }
}
