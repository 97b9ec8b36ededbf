/** A filter hides the row the cursor is on, pass after pass: where the cursor
    waits, and when it comes back. */
module FilterEpisodes {
  import opened Options
  import opened Sessions
  import opened SidebarFocus

  /** Some node of the tree has this row, drawn or not. */
  ghost predicate InModel(t: Tree, row: Row) {
    exists i :: 0 <= i < |t.nodes| && t.nodes[i].row == row
  }

  /** The cursor, and the row it is to come back to. */
  datatype Spot = Spot(cursor: Option<Row>, anchor: Option<Row>)

  function Pass(prev: Tree, next: Tree, at: Spot): Spot
    requires prev.Valid() && next.Valid()
  {
    var r := Repair(prev, next, at.cursor, at.anchor);
    Spot(r.cursor, r.anchor)
  }

  /** Passes over one tree after another, in which the user does not navigate. */
  function Passes(prev: Tree, trees: seq<Tree>, at: Spot): Spot
    requires prev.Valid() && forall t :: t in trees ==> t.Valid()
    decreases |trees|
  {
    if trees == [] then at
    else
      assert trees[0] in trees;
      Passes(trees[0], trees[1..], Pass(prev, trees[0], at))
  }

  /** The cursor is on the row, free to go, while that is drawn; and while it is
      not, the cursor waits on a row on screen, if on any, to come back. */
  ghost predicate Keeps(t: Tree, row: Row, at: Spot) {
    if t.Draws(row) then at == Spot(Some(row), None)
    else at.anchor == Some(row) && (at.cursor.Some? ==> OnScreen(t, at.cursor.value))
  }

  /** The row is drawn again, or the row the cursor waits on is still there. */
  ghost predicate Undisturbed(next: Tree, row: Row, at: Spot) {
    next.Draws(row) || at.cursor.None? || InModel(next, at.cursor.value)
  }

  /** One pass under a filter, the row still in the model. */
  lemma PassKeepsExactlyWhen(prev: Tree, next: Tree, row: Row, at: Spot)
    requires prev.Valid() && next.Valid() && next.filtering && InModel(next, row) && Keeps(prev, row, at)
    ensures Keeps(next, row, Pass(prev, next, at)) <==> Undisturbed(next, row, at)
  {
    RepairedCursorIsOnScreen(prev, next, at.cursor, at.anchor);
  }

  /** Every tree is one of the filter, and has the row. */
  ghost predicate Episode(trees: seq<Tree>, row: Row) {
    forall t :: t in trees ==> t.Valid() && t.filtering && InModel(t, row)
  }

  /** After every pass the cursor is on the row or waits for it. */
  ghost predicate AlwaysKeeps(prev: Tree, trees: seq<Tree>, row: Row, at: Spot)
    requires prev.Valid() && Episode(trees, row)
    decreases |trees|
  {
    trees == [] ||
      (assert trees[0] in trees && forall t :: t in trees[1..] ==> t in trees;
       var next := Pass(prev, trees[0], at);
       Keeps(trees[0], row, next) && AlwaysKeeps(trees[0], trees[1..], row, next))
  }

  /** No pass takes away the row the cursor waits on while the other is hidden. */
  ghost predicate NeverDisturbed(prev: Tree, trees: seq<Tree>, row: Row, at: Spot)
    requires prev.Valid() && Episode(trees, row)
    decreases |trees|
  {
    trees == [] ||
      (assert trees[0] in trees && forall t :: t in trees[1..] ==> t in trees;
       Undisturbed(trees[0], row, at) && NeverDisturbed(trees[0], trees[1..], row, Pass(prev, trees[0], at)))
  }

  /** Over any run of passes under a filter in which the row stays in the model and
      the user does not navigate: the cursor is on it after every pass that draws
      it, with nothing left to come back to, and waits for it after every other,
      exactly when no pass takes away the row that it waits on. */
  lemma {:induction false} CursorComesBackExactlyWhen(prev: Tree, trees: seq<Tree>, row: Row, at: Spot)
    requires prev.Valid() && Episode(trees, row) && Keeps(prev, row, at)
    ensures AlwaysKeeps(prev, trees, row, at) <==> NeverDisturbed(prev, trees, row, at)
    decreases |trees|
  {
    if trees != [] {
      assert trees[0] in trees && forall t :: t in trees[1..] ==> t in trees;
      PassKeepsExactlyWhen(prev, trees[0], row, at);
      if Undisturbed(trees[0], row, at) {
        CursorComesBackExactlyWhen(trees[0], trees[1..], row, Pass(prev, trees[0], at));
      }
    }
  }

  /** When the row is hidden, the cursor waits on its nearest ancestor on display,
      or on the first row when none is. */
  lemma HiddenRowWaits(prev: Tree, next: Tree, row: Row)
    requires prev.Valid() && next.Valid() && InModel(next, row) && !next.Draws(row)
    ensures var at, k := Pass(prev, next, Spot(Some(row), None)), Find(next, row);
            && k.Some? && at.anchor == Some(row)
            && NearestDrawn(next, Ancestors(next, next.nodes[k.value].parent), at.cursor)
  {
    ClimbIsNearest(next, next, next.nodes[Find(next, row).value].parent);
  }

  /** Hidden again on the way, the cursor still comes back to the first row. */
  lemma DeepestRowIsKept(prev: Tree, next: Tree, row: Row, waiting: Row)
    requires prev.Valid() && next.Valid() && next.filtering && InModel(next, row) && !next.Draws(row)
    requires InModel(next, waiting) && !next.Draws(waiting)
    ensures Pass(prev, next, Spot(Some(waiting), Some(row))).anchor == Some(row)
  {
  }

  /** A cursor on a row that neither tree has goes to the first row on display. */
  lemma StrayCursorGoesFirst(prev: Tree, next: Tree, row: Row)
    requires prev.Valid() && next.Valid() && !InModel(prev, row) && !InModel(next, row)
    ensures var cursor := Pass(prev, next, Spot(Some(row), None)).cursor;
            if next.projected == [] then cursor.None?
            else next.projected[0] < |next.nodes| && cursor == Some(next.nodes[next.projected[0]].row)
  {
    if next.projected != [] {
      assert next.projected[0] in next.projected;
    }
  }

  // ---- Navigation ----

  /** A pass after the user may have navigated since the last one. */
  function NextPass(prev: Tree, next: Tree, at: Spot, left: FocusWrite, workspace: Workspace, active: Option<nat>): Spot
    requires prev.Valid() && next.Valid()
  {
    Pass(prev, next, if Overtaken(Some(left), at.cursor, workspace, active) then at.(anchor := None) else at)
  }

  /** With a row to come back to that is drawn again, a cursor left on another drawn
      row comes back exactly when, since the last pass, the user has neither moved it
      nor shown another workspace or tab; otherwise it stays, and the row is
      forgotten either way. */
  lemma NavigationForgetsExactlyWhen(prev: Tree, next: Tree, row: Row, at: Spot, left: FocusWrite,
                                     workspace: Workspace, active: Option<nat>)
    requires prev.Valid() && next.Valid() && next.filtering && next.Draws(row)
    requires at.anchor == Some(row) && at.cursor.Some? && at.cursor != Some(row) && next.Draws(at.cursor.value)
    ensures var after := NextPass(prev, next, at, left, workspace, active);
            var same := left.cursor == at.cursor && left.workspace == workspace && left.active == active;
            after == Spot(if same then Some(row) else at.cursor, None)
  {
  }

  // ---- A row that is forgotten ----

  function Around(session: Node, projected: seq<nat>): Tree {
    Tree([Node(HomeRow, Root), Node(ProjectRow("/p"), Root), Node(WorktreeRow("/p/w"), Under(1)), session], projected, true)
  }

  /** Session 5 in a worktree: on display; hidden; its project dropped while it
      keeps running; and the project back. */
  const SHOWN := Around(Node(SessionRow(5), Under(2)), [0, 1, 2, 3])
  const HIDDEN := Around(Node(SessionRow(5), Under(2)), [0, 1, 2])
  const DROPPED := Tree([Node(HomeRow, Root), Node(SessionRow(5), Detached)], [0], true)

  lemma Finds(t: Tree, row: Row, k: Option<nat>)
    requires match k case Some(i) => i < |t.nodes| && t.nodes[i].row == row && forall j :: 0 <= j < i ==> t.nodes[j].row != row
                     case None => !InModel(t, row)
    ensures Find(t, row) == k
  {
  }

  lemma FirstPass()
    ensures SHOWN.Valid() && HIDDEN.Valid() && InModel(HIDDEN, SessionRow(5))
    ensures Pass(SHOWN, HIDDEN, Spot(Some(SessionRow(5)), None)) == Spot(Some(WorktreeRow("/p/w")), Some(SessionRow(5)))
  {
    assert HIDDEN.nodes[3].row == SessionRow(5);
    Finds(HIDDEN, SessionRow(5), Some(3));
    Finds(HIDDEN, WorktreeRow("/p/w"), Some(2));
  }

  lemma SecondPass()
    ensures HIDDEN.Valid() && DROPPED.Valid() && InModel(DROPPED, SessionRow(5))
    ensures Pass(HIDDEN, DROPPED, Spot(Some(WorktreeRow("/p/w")), Some(SessionRow(5)))) == Spot(Some(HomeRow), None)
  {
    assert DROPPED.nodes[1].row == SessionRow(5);
    Finds(DROPPED, SessionRow(5), Some(1));
    Finds(DROPPED, WorktreeRow("/p/w"), None);
    Finds(DROPPED, ProjectRow("/p"), None);
    Finds(HIDDEN, WorktreeRow("/p/w"), Some(2));
  }

  lemma ThirdPass()
    ensures DROPPED.Valid() && SHOWN.Valid() && InModel(SHOWN, SessionRow(5)) && SHOWN.Draws(SessionRow(5))
    ensures Pass(DROPPED, SHOWN, Spot(Some(HomeRow), None)) == Spot(Some(HomeRow), None)
  {
    assert SHOWN.nodes[3].row == SessionRow(5);
    Finds(SHOWN, SessionRow(5), Some(3));
    Finds(SHOWN, HomeRow, Some(0));
  }

  /** The cursor waits on the worktree's row, which goes with the project: it ends
      on home, and session 5 is forgotten though it was in the model throughout. */
  lemma WaitingCanBeDisturbed()
    ensures SHOWN.Valid() && Episode([HIDDEN, DROPPED, SHOWN], SessionRow(5)) && SHOWN.Draws(SessionRow(5))
    ensures Passes(SHOWN, [HIDDEN, DROPPED, SHOWN], Spot(Some(SessionRow(5)), None)) == Spot(Some(HomeRow), None)
  {
    FirstPass();
    SecondPass();
    ThirdPass();
    PassesOfThree(SHOWN, HIDDEN, DROPPED, SHOWN, Spot(Some(SessionRow(5)), None));
  }

  lemma PassesOfThree(prev: Tree, a: Tree, b: Tree, c: Tree, at: Spot)
    requires prev.Valid() && a.Valid() && b.Valid() && c.Valid()
    ensures Passes(prev, [a, b, c], at) == Pass(b, c, Pass(a, b, Pass(prev, a, at)))
  {
    var one, two := Pass(prev, a, at), Pass(a, b, Pass(prev, a, at));
    assert [a, b, c][1..] == [b, c] && [b, c][1..] == [c] && [c][1..] == [];
    assert Passes(b, [c], two) == Pass(b, c, two);
    assert Passes(a, [b, c], one) == Passes(b, [c], two);
  }
}
