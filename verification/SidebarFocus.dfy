/** Where the sidebar's cursor goes when the tree changes under it, and what the
    terminal is offered to follow. */
module SidebarFocus {
  import opened AppState
  import opened CloseSessions
  import opened Options
  import opened Seqs
  import opened Sessions

  datatype Row =
    | HomeRow
    | ProjectRow(root: string)
    | WorktreeRow(path: string)
    | SessionRow(id: nat)
    | PaneRow(pane: string)

  datatype Parent = Root | Under(node: nat) | Detached

  datatype Node = Node(row: Row, parent: Parent)

  /** The tree, parents before children, and which nodes are drawn, in order. */
  datatype Tree = Tree(nodes: seq<Node>, projected: seq<nat>, filtering: bool) {
    ghost predicate Valid() {
      && (forall k :: k in projected ==> k < |nodes|)
      && (forall k :: 0 <= k < |nodes| && nodes[k].parent.Under? ==> nodes[k].parent.node < k)
    }

    predicate Draws(row: Row) {
      var k := Find(this, row);
      k.Some? && k.value in projected
    }
  }

  function Find(t: Tree, row: Row): (k: Option<nat>)
    ensures k.Some? ==> k.value < |t.nodes| && t.nodes[k.value].row == row
    ensures k.None? ==> forall i :: 0 <= i < |t.nodes| ==> t.nodes[i].row != row
  {
    FindIn(t.nodes, row)
  }

  function FindIn(nodes: seq<Node>, row: Row): (k: Option<nat>)
    ensures k.Some? ==> k.value < |nodes| && nodes[k.value].row == row
    ensures k.Some? ==> forall i :: 0 <= i < k.value ==> nodes[i].row != row
    ensures k.None? ==> forall i :: 0 <= i < |nodes| ==> nodes[i].row != row
  {
    if nodes == [] then None
    else if nodes[0].row == row then Some(0)
    else
      match FindIn(nodes[1..], row)
      case None => None
      case Some(i) => Some(i + 1)
  }

  /** The drawn nodes under one parent. */
  function Among(t: Tree, ids: seq<nat>, parent: Parent): (r: seq<nat>)
    requires forall k :: k in ids ==> k < |t.nodes|
    ensures forall k :: k in r ==> k in ids && t.nodes[k].parent == parent
  {
    if ids == [] then []
    else
      assert ids[0] in ids && forall k :: k in ids[1..] ==> k in ids;
      (if t.nodes[ids[0]].parent == parent then [ids[0]] else []) + Among(t, ids[1..], parent)
  }

  function Children(t: Tree, parent: Parent): (r: seq<nat>)
    requires t.Valid()
    ensures forall k :: k in r ==> k in t.projected && k < |t.nodes| && t.nodes[k].parent == parent
  {
    if parent.Detached? then [] else Among(t, t.projected, parent)
  }

  function OrdinalOf(ids: seq<nat>, k: nat): (i: Option<nat>)
    ensures i.Some? ==> i.value < |ids| && ids[i.value] == k
    ensures i.None? ==> k !in ids
  {
    if ids == [] then None
    else if ids[0] == k then Some(0)
    else
      match OrdinalOf(ids[1..], k)
      case None => None
      case Some(i) => Some(i + 1)
  }

  // ---- Landings ----

  /** The row at an ordinal among surviving siblings, else the last of them. */
  function SurvivorAt(next: Tree, there: Parent, ordinal: nat): (row: Option<Row>)
    requires next.Valid()
  {
    var survivors := Children(next, there);
    if survivors == [] then None
    else
      var k := survivors[if ordinal < |survivors| then ordinal else |survivors| - 1];
      assert k in survivors;
      Some(next.nodes[k].row)
  }

  /** Where a removed row's cursor lands: on the survivor at its place, else on
      the parent. */
  function Slide(prev: Tree, next: Tree, removed: nat): Option<Row>
    requires prev.Valid() && next.Valid() && removed < |prev.nodes|
  {
    var parent := prev.nodes[removed].parent;
    var ordinal := OrdinalOf(Children(prev, parent), removed);
    if parent.Detached? || ordinal.None? then None
    else
      var there := if parent.Root? then Some(Root) else ParentIn(next, prev.nodes[parent.node].row);
      if there.None? then None
      else
        var survivor := SurvivorAt(next, there.value, ordinal.value);
        if survivor.Some? || !parent.Under? then survivor else Some(prev.nodes[parent.node].row)
  }

  function ParentIn(t: Tree, row: Row): Option<Parent> {
    match Find(t, row)
    case None => None
    case Some(k) => Some(Under(k))
  }

  function FirstDrawn(t: Tree): (r: Option<Row>)
    requires t.Valid()
  {
    if t.projected == [] then None
    else
      assert t.projected[0] in t.projected;
      Some(t.nodes[t.projected[0]].row)
  }

  /** The nearest ancestor that is still drawn, else the first drawn row. */
  function Climb(tree: Tree, next: Tree, from: Parent): Option<Row>
    requires tree.Valid() && next.Valid() && (from.Under? ==> from.node < |tree.nodes|)
    decreases if from.Under? then from.node + 1 else 0
  {
    if !from.Under? then FirstDrawn(next)
    else
      var row := tree.nodes[from.node].row;
      if next.Draws(row) then Some(row) else Climb(tree, next, tree.nodes[from.node].parent)
  }

  /** The rows above a place, nearest first. */
  function Ancestors(t: Tree, from: Parent): seq<Row>
    requires t.Valid() && (from.Under? ==> from.node < |t.nodes|)
    decreases if from.Under? then from.node + 1 else 0
  {
    if !from.Under? then [] else [t.nodes[from.node].row] + Ancestors(t, t.nodes[from.node].parent)
  }

  /** The landing is the first of these rows that is drawn, and the first drawn
      row of all when none is. */
  ghost predicate NearestDrawn(next: Tree, above: seq<Row>, landing: Option<Row>)
    requires next.Valid()
  {
    || (exists n :: 0 <= n < |above| && landing == Some(above[n]) && next.Draws(above[n])
          && forall m :: 0 <= m < n ==> !next.Draws(above[m]))
    || (landing == FirstDrawn(next) && forall m :: 0 <= m < |above| ==> !next.Draws(above[m]))
  }

  lemma {:induction false} ClimbIsNearest(tree: Tree, next: Tree, from: Parent)
    requires tree.Valid() && next.Valid() && (from.Under? ==> from.node < |tree.nodes|)
    ensures NearestDrawn(next, Ancestors(tree, from), Climb(tree, next, from))
    decreases if from.Under? then from.node + 1 else 0
  {
    if from.Under? {
      var row, rest := tree.nodes[from.node].row, Ancestors(tree, tree.nodes[from.node].parent);
      if next.Draws(row) {
        assert ([row] + rest)[0] == row;
      } else {
        ClimbIsNearest(tree, next, tree.nodes[from.node].parent);
        StillNearest(next, row, rest, Climb(tree, next, from));
      }
    }
  }

  lemma StillNearest(next: Tree, hidden: Row, above: seq<Row>, landing: Option<Row>)
    requires next.Valid() && !next.Draws(hidden) && NearestDrawn(next, above, landing)
    ensures NearestDrawn(next, [hidden] + above, landing)
  {
    var all := [hidden] + above;
    if n :| 0 <= n < |above| && landing == Some(above[n]) && next.Draws(above[n])
            && forall m :: 0 <= m < n ==> !next.Draws(above[m]) {
      assert landing == Some(all[n + 1]);
      assert forall m :: 0 < m < n + 1 ==> all[m] == above[m - 1];
    }
  }

  method ClimbFrom(tree: Tree, next: Tree, from: nat) returns (landing: Option<Row>)
    requires tree.Valid() && next.Valid() && from < |tree.nodes|
    ensures landing == Climb(tree, next, tree.nodes[from].parent)
    ensures NearestDrawn(next, Ancestors(tree, tree.nodes[from].parent), landing)
  {
    ClimbIsNearest(tree, next, tree.nodes[from].parent);
    var at := tree.nodes[from].parent;
    while at.Under?
      invariant at.Under? ==> at.node < |tree.nodes|
      invariant Climb(tree, next, at) == Climb(tree, next, tree.nodes[from].parent)
      decreases if at.Under? then at.node + 1 else 0
    {
      var row := tree.nodes[at.node].row;
      if next.Draws(row) {
        return Some(row);
      }
      at := tree.nodes[at.node].parent;
    }
    landing := FirstDrawn(next);
  }

  /** A session's own row stands for it; a home or worktree row for its workspace,
      while a session lives there. */
  function Offer(next: Tree, landing: Row): Option<FollowTarget> {
    match landing
    case SessionRow(id) => Some(ToSession(id))
    case ProjectRow(_) => None
    case PaneRow(_) => None
    case _ =>
      var k := Find(next, landing);
      if k.None? || !HasSession(next, k.value) then None
      else Some(ToWorkspace(if landing.WorktreeRow? then Some(landing.path) else None))
  }

  predicate HasSession(t: Tree, k: nat) {
    exists i :: 0 <= i < |t.nodes| && t.nodes[i].row.SessionRow? && t.nodes[i].parent == Under(k)
  }

  // ---- Repair ----

  datatype Repaired = Repaired(cursor: Option<Row>, anchor: Option<Row>, follow: Option<FollowTarget>)

  function Repair(prev: Tree, next: Tree, cursor: Option<Row>, anchor: Option<Row>): Repaired
    requires prev.Valid() && next.Valid()
  {
    var parked := if next.filtering then anchor else None;
    if parked.Some? && next.Draws(parked.value) then Repaired(parked, None, None)
    else RepairVisible(prev, next, cursor, if parked.Some? && Find(next, parked.value).None? then None else parked)
  }

  function RepairVisible(prev: Tree, next: Tree, cursor: Option<Row>, anchor: Option<Row>): Repaired
    requires prev.Valid() && next.Valid()
  {
    if cursor.None? then Repaired(cursor, anchor, None)
    else
      var c := cursor.value;
      match Find(next, c)
      case Some(k) =>
        if k in next.projected then Repaired(cursor, anchor, None)
        else Repaired(Climb(next, next, next.nodes[k].parent), if anchor.Some? then anchor else cursor, None)
      case None =>
        match Find(prev, c)
        case None => Repaired(FirstDrawn(next), None, None)
        case Some(removed) =>
          var landing := Slide(prev, next, removed);
          if landing.Some? && next.Draws(landing.value)
          then Repaired(landing, None, Offer(next, landing.value))
          else Repaired(Climb(prev, next, prev.nodes[removed].parent), None, None)
  }

  /** Where closing tabs leaves the cursor before any repair: on the tab that the
      one under it returns to, if there is one. */
  function PinnedCursor(s: State, cursor: Option<Row>, ids: seq<nat>, goesBack: bool): Option<Row> {
    match cursor
    case Some(SessionRow(id)) =>
      var back := if id in ids then ReturnTarget(s, id, goesBack) else None;
      if back.Some? then Some(SessionRow(back.value)) else cursor
    case _ => cursor
  }

  /** What a pass last left, to tell whether the user has navigated since. */
  datatype FocusWrite = FocusWrite(cursor: Option<Row>, workspace: Workspace, active: Option<nat>)

  predicate Overtaken(written: Option<FocusWrite>, cursor: Option<Row>, workspace: Workspace, active: Option<nat>) {
    written.Some? && written.value != FocusWrite(cursor, workspace, active)
  }

  // ---- What a repair promises ----

  /** Some node of this row is drawn. */
  ghost predicate OnScreen(t: Tree, row: Row) {
    exists k :: k in t.projected && k < |t.nodes| && t.nodes[k].row == row
  }

  lemma {:induction false} ClimbIsOnScreen(tree: Tree, next: Tree, from: Parent)
    requires tree.Valid() && next.Valid() && (from.Under? ==> from.node < |tree.nodes|)
    ensures var r := Climb(tree, next, from); if r.Some? then OnScreen(next, r.value) else next.projected == []
    decreases if from.Under? then from.node + 1 else 0
  {
    if from.Under? {
      if !next.Draws(tree.nodes[from.node].row) {
        ClimbIsOnScreen(tree, next, tree.nodes[from.node].parent);
      }
    } else {
      FirstIsOnScreen(next);
    }
  }

  lemma FirstIsOnScreen(t: Tree)
    requires t.Valid()
    ensures var r := FirstDrawn(t); if r.Some? then OnScreen(t, r.value) else t.projected == []
  {
    if t.projected != [] {
      assert t.projected[0] in t.projected;
    }
  }

  /** After a repair the cursor is on a row on screen, unless there is none; an
      anchor is a row of the model that is hidden. */
  lemma RepairedCursorIsOnScreen(prev: Tree, next: Tree, cursor: Option<Row>, anchor: Option<Row>)
    requires prev.Valid() && next.Valid()
    ensures var r := Repair(prev, next, cursor, anchor);
            && (r.cursor.Some? ==> OnScreen(next, r.cursor.value))
            && (r.cursor.None? ==> cursor.None? || next.projected == [])
            && (r.anchor.Some? ==> Find(next, r.anchor.value).Some? && !next.Draws(r.anchor.value))
  {
    if cursor.Some? {
      FirstIsOnScreen(next);
      var here, there := Find(next, cursor.value), Find(prev, cursor.value);
      if here.Some? {
        ClimbIsOnScreen(next, next, next.nodes[here.value].parent);
      } else if there.Some? {
        ClimbIsOnScreen(prev, next, prev.nodes[there.value].parent);
      }
    }
  }

  /** The terminal is offered something exactly when the cursor's row left the
      model, nothing brought an anchor back, and it slid to a drawn row that
      stands for a live session. */
  lemma FollowsExactlyWhen(prev: Tree, next: Tree, cursor: Option<Row>, anchor: Option<Row>)
    requires prev.Valid() && next.Valid()
    ensures Repair(prev, next, cursor, anchor).follow.Some? <==>
      && !(next.filtering && anchor.Some? && next.Draws(anchor.value))
      && cursor.Some? && Find(next, cursor.value).None? && Find(prev, cursor.value).Some?
      && (var landing := Slide(prev, next, Find(prev, cursor.value).value);
          landing.Some? && next.Draws(landing.value) && Offer(next, landing.value).Some?)
  {
  }

  /** Hiding a row moves no terminal: an offer is made only when the cursor's row
      was on screen and has left the model, filter or collapse apart, and the
      cursor is then on a session's row on screen, or on that of a workspace with
      one. */
  lemma OnlyARemovalOffers(prev: Tree, next: Tree, cursor: Option<Row>, anchor: Option<Row>)
    requires prev.Valid() && next.Valid()
    ensures var r := Repair(prev, next, cursor, anchor);
            r.follow.Some? ==>
              && cursor.Some? && OnScreen(prev, cursor.value)
              && (forall k :: 0 <= k < |next.nodes| ==> next.nodes[k].row != cursor.value)
              && r.cursor.Some? && OnScreen(next, r.cursor.value) && r.anchor.None?
              && (if r.follow.value.ToSession? then r.cursor.value == SessionRow(r.follow.value.id)
                  else WorkspaceOf(r.cursor.value) == Some(r.follow.value.ws))
  {
    FollowsExactlyWhen(prev, next, cursor, anchor);
    if Repair(prev, next, cursor, anchor).follow.Some? {
      var removed := Find(prev, cursor.value).value;
      var landing := Slide(prev, next, removed).value;
      SlidFromTheScreen(prev, next, removed);
      OfferNames(next, landing);
      assert OnScreen(next, landing);
    }
  }

  lemma SlidFromTheScreen(prev: Tree, next: Tree, removed: nat)
    requires prev.Valid() && next.Valid() && removed < |prev.nodes| && Slide(prev, next, removed).Some?
    ensures OnScreen(prev, prev.nodes[removed].row)
  {
    assert removed in Children(prev, prev.nodes[removed].parent);
  }

  lemma OfferNames(next: Tree, landing: Row)
    requires Offer(next, landing).Some?
    ensures match Offer(next, landing).value
            case ToSession(id) => landing == SessionRow(id)
            case ToWorkspace(ws) => WorkspaceOf(landing) == Some(ws)
  {
  }

  /** No row stands in the tree twice. */
  ghost predicate RowsDiffer(t: Tree) {
    forall i, j :: 0 <= i < j < |t.nodes| ==> t.nodes[i].row != t.nodes[j].row
  }

  /** A second pass over the same tree offers nothing, and moves nothing unless a
      row stands in the tree twice. */
  lemma RepairIsStable(prev: Tree, next: Tree, cursor: Option<Row>, anchor: Option<Row>)
    requires prev.Valid() && next.Valid()
    ensures var once := Repair(prev, next, cursor, anchor);
            var again := Repair(next, next, once.cursor, once.anchor);
            again.follow.None? && (RowsDiffer(next) ==> again.cursor == once.cursor)
  {
    RepairedCursorIsOnScreen(prev, next, cursor, anchor);
    var once := Repair(prev, next, cursor, anchor);
    if RowsDiffer(next) && once.cursor.Some? {
      var k :| k in next.projected && k < |next.nodes| && next.nodes[k].row == once.cursor.value;
      assert Find(next, once.cursor.value) == Some(k);
    }
  }

  // ---- What is offered is open ----

  function WorkspaceOf(row: Row): Option<Workspace> {
    match row
    case HomeRow => Some(None)
    case WorktreeRow(path) => Some(Some(path))
    case _ => None
  }

  /** A session's row is an open session, under its own workspace if anywhere. */
  ghost predicate ShowsSession(t: Tree, k: nat, sessions: seq<Session>)
    requires k < |t.nodes|
  {
    t.nodes[k].row.SessionRow? ==>
      var at := Position(sessions, t.nodes[k].row.id);
      && at.Some?
      && (t.nodes[k].parent.Under? && t.nodes[k].parent.node < |t.nodes| ==>
            WorkspaceOf(t.nodes[t.nodes[k].parent.node].row) == Some(sessions[at.value].workspace))
  }

  /** What a repair offers is open, so the terminal can go there. */
  lemma OfferIsOpen(prev: Tree, next: Tree, cursor: Option<Row>, anchor: Option<Row>, s: State)
    requires prev.Valid() && next.Valid()
    requires forall k :: 0 <= k < |next.nodes| ==> ShowsSession(next, k, s.sessions)
    ensures Offers(s, Repair(prev, next, cursor, anchor).follow)
  {
    var follow := Repair(prev, next, cursor, anchor).follow;
    if follow.Some? {
      FollowsExactlyWhen(prev, next, cursor, anchor);
      OfferedIsOpen(next, Slide(prev, next, Find(prev, cursor.value).value).value, s);
    }
  }

  lemma OfferedIsOpen(next: Tree, landing: Row, s: State)
    requires next.Valid() && next.Draws(landing) && Offer(next, landing).Some?
    requires forall k :: 0 <= k < |next.nodes| ==> ShowsSession(next, k, s.sessions)
    ensures Offers(s, Offer(next, landing))
  {
    var k := Find(next, landing).value;
    assert ShowsSession(next, k, s.sessions);
    if Offer(next, landing).value.ToWorkspace? {
      var i :| 0 <= i < |next.nodes| && next.nodes[i].row.SessionRow? && next.nodes[i].parent == Under(k);
      assert ShowsSession(next, i, s.sessions);
    }
  }

  // ---- Where a removed row leaves the cursor ----

  function ChildOf(t: Tree, parent: Parent): nat -> bool {
    (k: nat) => k < |t.nodes| && t.nodes[k].parent == parent
  }

  /** The children of a parent on display, in order. */
  function Siblings(t: Tree, parent: Parent): seq<nat> {
    Filter(t.projected, ChildOf(t, parent))
  }

  lemma {:induction false} AmongAre(t: Tree, ids: seq<nat>, parent: Parent)
    requires forall k :: k in ids ==> k < |t.nodes|
    ensures Among(t, ids, parent) == Filter(ids, ChildOf(t, parent))
  {
    if ids != [] {
      assert ids[0] in ids && forall k :: k in ids[1..] ==> k in ids;
      AmongAre(t, ids[1..], parent);
    }
  }

  /** The parent of the removed row, as the next tree has it. */
  ghost predicate SameParent(prev: Tree, next: Tree, parent: Parent, there: Parent) {
    || (parent.Root? && there.Root?)
    || (parent.Under? && there.Under? && parent.node < |prev.nodes|
        && Find(next, prev.nodes[parent.node].row) == Some(there.node))
  }

  /** The i-th row now on display under the parent, or the last when there are fewer,
      or the parent itself when there is none. */
  function Replacement(prev: Tree, next: Tree, parent: Parent, there: Parent, i: nat): Option<Row> {
    var rows := Siblings(next, there);
    if rows != [] then
      var at := rows[if i < |rows| then i else |rows| - 1];
      if at < |next.nodes| then Some(next.nodes[at].row) else None
    else if parent.Under? && parent.node < |prev.nodes| then Some(prev.nodes[parent.node].row)
    else None
  }

  lemma SlideIsTheReplacement(prev: Tree, next: Tree, k: nat, i: nat, there: Parent)
    requires prev.Valid() && next.Valid() && k < |prev.nodes|
    requires var rows := Siblings(prev, prev.nodes[k].parent);
             i < |rows| && rows[i] == k && k !in rows[..i]
    requires !prev.nodes[k].parent.Detached? && SameParent(prev, next, prev.nodes[k].parent, there)
    ensures Slide(prev, next, k) == Replacement(prev, next, prev.nodes[k].parent, there, i)
  {
    var parent := prev.nodes[k].parent;
    var rows := Siblings(prev, parent);
    AmongAre(prev, prev.projected, parent);
    OrdinalIs(rows, k, i);
    SlideFrom(prev, next, k, i, there);
    SurvivorIs(next, there, i);
  }

  lemma SlideFrom(prev: Tree, next: Tree, k: nat, i: nat, there: Parent)
    requires prev.Valid() && next.Valid() && k < |prev.nodes| && !prev.nodes[k].parent.Detached?
    requires OrdinalOf(Children(prev, prev.nodes[k].parent), k) == Some(i)
    requires SameParent(prev, next, prev.nodes[k].parent, there)
    ensures var parent, survivor := prev.nodes[k].parent, SurvivorAt(next, there, i);
            Slide(prev, next, k)
            == if survivor.Some? || !parent.Under? then survivor else Some(prev.nodes[parent.node].row)
  {
  }

  lemma SurvivorIs(next: Tree, there: Parent, i: nat)
    requires next.Valid() && !there.Detached?
    ensures var rows := Siblings(next, there);
            if rows == [] then SurvivorAt(next, there, i).None?
            else
              var at := rows[if i < |rows| then i else |rows| - 1];
              at < |next.nodes| && SurvivorAt(next, there, i) == Some(next.nodes[at].row)
  {
    AmongAre(next, next.projected, there);
    var rows := Children(next, there);
    if rows != [] {
      assert rows[if i < |rows| then i else |rows| - 1] in rows;
    }
  }

  /** The cursor's row was the i-th on display under its parent and has left the tree:
      the cursor goes to its replacement, and offers it; if that is not on display, it
      goes to the nearest ancestor that is, and nothing is offered. */
  lemma RemovedRowIsReplaced(prev: Tree, next: Tree, row: Row, anchor: Option<Row>, k: nat, i: nat, there: Parent)
    requires prev.Valid() && next.Valid() && Find(prev, row) == Some(k) && Find(next, row).None?
    requires var rows := Siblings(prev, prev.nodes[k].parent);
             i < |rows| && rows[i] == k && k !in rows[..i]
    requires !prev.nodes[k].parent.Detached? && SameParent(prev, next, prev.nodes[k].parent, there)
    requires anchor.None? || !next.filtering || !next.Draws(anchor.value)
    ensures var landing := Replacement(prev, next, prev.nodes[k].parent, there, i);
            var after := Repair(prev, next, Some(row), anchor);
            if landing.Some? && next.Draws(landing.value) then after == Repaired(landing, None, Offer(next, landing.value))
            else after.anchor.None? && after.follow.None?
                 && NearestDrawn(next, Ancestors(prev, prev.nodes[k].parent), after.cursor)
  {
    SlideIsTheReplacement(prev, next, k, i, there);
    ClimbIsNearest(prev, next, prev.nodes[k].parent);
  }

  lemma {:induction false} OrdinalIs(ids: seq<nat>, k: nat, i: nat)
    requires i < |ids| && ids[i] == k && k !in ids[..i]
    ensures OrdinalOf(ids, k) == Some(i)
  {
    if i > 0 {
      assert ids[0] in ids[..i] && ids[1..][..i - 1] == ids[..i][1..];
      OrdinalIs(ids[1..], k, i - 1);
    }
  }
}
