/** Sessions in one flat list that interleaves every workspace, and how a drag
    reorders one workspace's rows inside it. */
module Sessions {
  import opened Options
  import opened Seqs
  import opened Walks

  /** A worktree's path, or nothing for home. */
  type Workspace = Option<string>

  datatype Kind = Shell | Scratchpad | Tasks | Diff

  datatype Session = Session(workspace: Workspace, id: nat, pane: Option<string>, kind: Kind)

  ghost predicate DistinctIds(sessions: seq<Session>) {
    forall i, j :: 0 <= i < j < |sessions| ==> sessions[i].id != sessions[j].id
  }

  /** The position of the first session with this id. */
  function Position(sessions: seq<Session>, id: nat): (r: Option<nat>)
    ensures r.Some? ==> r.value < |sessions| && sessions[r.value].id == id
    ensures r.Some? ==> forall i :: 0 <= i < r.value ==> sessions[i].id != id
    ensures r.None? ==> forall i :: 0 <= i < |sessions| ==> sessions[i].id != id
    decreases |sessions|
  {
    if sessions == [] then None
    else if sessions[0].id == id then Some(0)
    else
      match Position(sessions[1..], id)
      case None => None
      case Some(i) => Some(i + 1)
  }

  // ---- Picking slots ----

  /** The slots whose elements satisfy `p`, in order. */
  function Where<T>(s: seq<T>, p: T -> bool): (r: Slots)
    ensures Within(r, |s|)
    ensures forall i, j :: 0 <= i < j < |r| ==> r[i] < r[j]
    ensures forall i: nat :: i in r <==> i < |s| && p(s[i])
  {
    if s == [] then []
    else
      var last := |s| - 1;
      Where(s[..last], p) + (if p(s[last]) then [last as nat] else [])
  }

  lemma {:induction false} GatherWhere<T>(s: seq<T>, p: T -> bool)
    ensures SlotsOf(Where(s, p), s)
    ensures Gather(s, Where(s, p)) == Filter(s, p)
  {
    if s != [] {
      var last := |s| - 1;
      GatherWhere(s[..last], p);
      assert s == s[..last] + [s[last]];
      FilterConcat(s[..last], [s[last]], p);
      FilterOne(s[last], p);
      GatherOneMore(s, Where(s[..last], p));
    }
  }

  lemma GatherOneMore<T>(s: seq<T>, picked: Slots)
    requires s != [] && Within(picked, |s| - 1)
    ensures Within(picked + [|s| - 1], |s|)
    ensures Gather(s, picked) == Gather(s[..|s| - 1], picked)
    ensures Gather(s, picked + [|s| - 1]) == Gather(s, picked) + [s[|s| - 1]]
  {
  }

  lemma {:induction false} SamePicksSameSlots<T>(s: seq<T>, t: seq<T>, p: T -> bool)
    requires |s| == |t| && forall i :: 0 <= i < |s| ==> (p(s[i]) <==> p(t[i]))
    ensures Where(s, p) == Where(t, p)
  {
    if s != [] {
      SamePicksSameSlots(s[..|s| - 1], t[..|t| - 1], p);
    }
  }

  // ---- Reordering ----

  /** Sessions a reorder may move: those of the workspace whose place no
      multiplexer owns. */
  function Movable(ws: Workspace): Session -> bool {
    (s: Session) => s.workspace == ws && s.pane.None?
  }

  function InWorkspace(ws: Workspace): Session -> bool {
    (s: Session) => s.workspace == ws
  }

  function Rows(sessions: seq<Session>, ws: Workspace): seq<Session> {
    Filter(sessions, Movable(ws))
  }

  function MoveTarget(len: nat, from: nat, insertBefore: nat): Option<nat> {
    if from >= len then None
    else
      var slot := if insertBefore < len then insertBefore else len;
      var to := if slot > from then slot - 1 else slot;
      if to != from then Some(to) else None
  }

  function DropPosition(sameWorkspace: bool, len: nat, from: nat, insertBefore: nat): Option<nat> {
    if sameWorkspace then MoveTarget(len, from, insertBefore) else Some(insertBefore)
  }

  /** The sessions after `id` walked to `position` among its own workspace's. */
  function Reordered(sessions: seq<Session>, id: nat, position: nat): (r: seq<Session>) {
    match Position(sessions, id)
    case None => sessions
    case Some(abs) =>
      var indices := Where(sessions, Movable(sessions[abs].workspace));
      if abs !in indices then sessions
      else
        var swaps := WalkOf(indices, IndexOf(indices, abs), position);
        WalkIsInRange(sessions, indices, IndexOf(indices, abs), position);
        ApplySwaps(sessions, swaps)
  }

  lemma WalkIsInRange<T>(s: seq<T>, indices: Slots, j: nat, position: nat)
    requires SlotsOf(indices, s) && j < |indices|
    ensures InRange(WalkOf(indices, j, position), |s|)
  {
    WalkMoves(s, indices, j, if position < |indices| then position else |indices| - 1);
  }

  /** Whether a session may change workspace at all. */
  predicate Leaves(kind: Kind) {
    kind.Shell?
  }

  /** The sessions after a drop of `id` into `ws` before row `insertBefore`. */
  function Dropped(sessions: seq<Session>, id: nat, ws: Workspace, insertBefore: nat): seq<Session> {
    match Position(sessions, id)
    case None => sessions
    case Some(abs) =>
      if sessions[abs].pane.Some? then sessions
      else
        var same := sessions[abs].workspace == ws;
        var indices := Where(sessions, Movable(ws));
        var from := if abs in indices then IndexOf(indices, abs) else |indices|;
        match DropPosition(same, |indices|, from, insertBefore)
        case None => sessions
        case Some(position) =>
          if same then Reordered(sessions, id, position)
          else if !Leaves(sessions[abs].kind) then sessions
          else Reordered(sessions[abs := sessions[abs].(workspace := ws)], id, position)
  }

  // ---- What a drop means, in terms of rows ----

  /** The rows with the one at `from` put immediately before the row that stood
      at slot `before`, or last. */
  function PutBefore<T>(rows: seq<T>, from: nat, before: nat): seq<T>
    requires from < |rows|
  {
    var slot := if before < |rows| then before else |rows|;
    if from < slot then rows[..from] + rows[from + 1..slot] + [rows[from]] + rows[slot..]
    else rows[..slot] + [rows[from]] + rows[slot..from] + rows[from + 1..]
  }

  /** The row lands right before the row it was dropped on, or last, and the
      other rows keep their order. */
  lemma PutBeforeLands<T>(rows: seq<T>, from: nat, before: nat) returns (at: nat)
    requires from < |rows|
    ensures var r := PutBefore(rows, from, before);
            && at < |r| == |rows| && r[at] == rows[from]
            && RemoveAt(r, at) == RemoveAt(rows, from)
            && (before >= |rows| ==> at == |r| - 1)
            && (before < |rows| && before != from ==> at + 1 < |r| && r[at + 1] == rows[before])
            && (before == from ==> r == rows)
  {
    var slot := if before < |rows| then before else |rows|;
    at := if from < slot then slot - 1 else slot;
    var r := PutBefore(rows, from, before);
    assert RemoveAt(r, at) == RemoveAt(rows, from);
  }

  /** The slot arithmetic moves exactly there, and answers nothing exactly when
      the drop would change nothing. */
  lemma MoveTargetPutsBefore<T>(rows: seq<T>, from: nat, before: nat)
    requires from < |rows| && Distinct(rows)
    ensures var to := MoveTarget(|rows|, from, before);
            && (to.None? <==> PutBefore(rows, from, before) == rows)
            && (to.Some? ==> to.value < |rows| && Move(rows, from, to.value) == PutBefore(rows, from, before))
  {
    var put := PutBefore(rows, from, before);
    match MoveTarget(|rows|, from, before)
    case None =>
      assert put == rows;
    case Some(to) =>
      assert Move(rows, from, to) == put;
      assert put[to] == rows[from] != rows[to];
  }

  lemma RowsAreDistinct(sessions: seq<Session>, ws: Workspace)
    requires DistinctIds(sessions)
    ensures Distinct(Rows(sessions, ws))
  {
    GatherWhere(sessions, Movable(ws));
    var indices := Where(sessions, Movable(ws));
    forall i, j | 0 <= i < j < |indices|
      ensures sessions[indices[i]] != sessions[indices[j]]
    {}
  }

  lemma MoveKeepsProperty<T>(g: seq<T>, j: nat, to: nat, p: T -> bool)
    requires j < |g| && to < |g| && forall m :: 0 <= m < |g| ==> p(g[m])
    ensures forall m :: 0 <= m < |g| ==> p(Move(g, j, to)[m])
  {
    var rest := RemoveAt(g, j);
    assert forall m :: 0 <= m < |rest| ==> p(rest[m]);
  }

  /** What a reorder does to the list: among the elements `p` picks, the one at
      `from` goes to `to`; every other element keeps its very slot. */
  ghost predicate MovesOne<T>(s: seq<T>, t: seq<T>, p: T -> bool, from: nat, to: nat) {
    && |t| == |s| && multiset(t) == multiset(s)
    && from < |Filter(s, p)| && to < |Filter(s, p)|
    && Filter(t, p) == Move(Filter(s, p), from, to)
    && (forall i :: 0 <= i < |s| ==> (p(t[i]) <==> p(s[i])))
    && (forall i :: 0 <= i < |s| && !p(s[i]) ==> t[i] == s[i])
  }

  lemma WalkMovesOne<T>(s: seq<T>, p: T -> bool, j: nat, to: nat)
    requires j < |Where(s, p)| && to < |Where(s, p)|
    ensures InRange(Swaps(Where(s, p), j, to), |s|)
    ensures MovesOne(s, ApplySwaps(s, Swaps(Where(s, p), j, to)), p, j, to)
  {
    var indices := Where(s, p);
    GatherWhere(s, p);
    WalkMoves(s, indices, j, to);
    var t := ApplySwaps(s, Swaps(indices, j, to));
    WalkKeepsPicks(s, t, p, j, to);
    SamePicksSameSlots(s, t, p);
    GatherWhere(t, p);
  }

  lemma WalkKeepsPicks<T>(s: seq<T>, t: seq<T>, p: T -> bool, j: nat, to: nat)
    requires |t| == |s| && j < |Where(s, p)| && to < |Where(s, p)|
    requires SlotsOf(Where(s, p), s) && Carries(s, t, Where(s, p), j, to)
    ensures forall i :: 0 <= i < |s| ==> (p(t[i]) <==> p(s[i]))
  {
    var indices := Where(s, p);
    var g, h := Gather(s, indices), Gather(t, indices);
    forall m | 0 <= m < |g|
      ensures p(g[m])
    {
      assert indices[m] in indices;
    }
    MoveKeepsProperty(g, j, to, p);
    forall i: nat | i < |s|
      ensures p(t[i]) <==> p(s[i])
    {
      if i in indices {
        var k := IndexIn(indices, i);
        assert h[k] == t[i];
      }
    }
  }

  /** Walking a session to a position moves its row there among its workspace's
      rows, and disturbs no other slot of the list. */
  lemma ReorderMovesOneRow(sessions: seq<Session>, id: nat, position: nat, abs: nat)
    returns (from: nat, to: nat)
    requires DistinctIds(sessions) && abs < |sessions| && sessions[abs].id == id && sessions[abs].pane.None?
    ensures var ws := sessions[abs].workspace;
            && MovesOne(sessions, Reordered(sessions, id, position), Movable(ws), from, to)
            && abs in Where(sessions, Movable(ws)) && from == IndexOf(Where(sessions, Movable(ws)), abs)
            && Rows(sessions, ws)[from] == sessions[abs]
            && to == (if position < |Rows(sessions, ws)| then position else |Rows(sessions, ws)| - 1)
  {
    var p := Movable(sessions[abs].workspace);
    PickedAt(sessions, p, abs);
    var indices := Where(sessions, p);
    from := IndexOf(indices, abs);
    to := if position < |indices| then position else |indices| - 1;
    WalkMovesOne(sessions, p, from, to);
    ReorderedIsAWalk(sessions, id, position, abs);
  }

  /** An element that `p` picks stands among the picked where its slot does. */
  lemma PickedAt<T>(s: seq<T>, p: T -> bool, i: nat)
    requires i < |s| && p(s[i])
    ensures i in Where(s, p) && |Filter(s, p)| == |Where(s, p)|
    ensures Filter(s, p)[IndexOf(Where(s, p), i)] == s[i]
  {
    GatherWhere(s, p);
  }

  lemma ReorderedIsAWalk(sessions: seq<Session>, id: nat, position: nat, abs: nat)
    requires DistinctIds(sessions) && abs < |sessions| && sessions[abs].id == id && sessions[abs].pane.None?
    ensures var indices := Where(sessions, Movable(sessions[abs].workspace));
            abs in indices && InRange(WalkOf(indices, IndexOf(indices, abs), position), |sessions|)
            && Reordered(sessions, id, position)
               == ApplySwaps(sessions, WalkOf(indices, IndexOf(indices, abs), position))
  {
    var indices := Where(sessions, Movable(sessions[abs].workspace));
    PositionOfId(sessions, id, abs);
    GatherWhere(sessions, Movable(sessions[abs].workspace));
    WalkIsInRange(sessions, indices, IndexOf(indices, abs), position);
  }

  lemma PositionOfId(sessions: seq<Session>, id: nat, abs: nat)
    requires DistinctIds(sessions) && abs < |sessions| && sessions[abs].id == id
    ensures Position(sessions, id) == Some(abs)
  {
    var at := Position(sessions, id);
    assert at.Some?;
  }
}
