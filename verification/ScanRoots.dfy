/** The project roots a scan waits on: registered, answered, or gone before
    they were. */
module ScanRoots {
  import opened Options
  import opened Estimates
  import opened Seqs

  type Path = string

  datatype Root = Root(path: Path, result: Option<Outcome>)

  function Position(roots: seq<Root>, path: Path): (i: nat)
    ensures i <= |roots|
    ensures i < |roots| ==> roots[i].path == path
    ensures forall k :: 0 <= k < i ==> roots[k].path != path
  {
    if roots == [] || roots[0].path == path then 0 else 1 + Position(roots[1..], path)
  }

  function Started(roots: seq<Root>, path: Path): seq<Root> {
    if Position(roots, path) < |roots| then roots else roots + [Root(path, None)]
  }

  function Finished(roots: seq<Root>, path: Path, result: Outcome): seq<Root> {
    var i := Position(roots, path);
    if i < |roots| && roots[i].result.None? then roots[i := Root(path, Some(result))] else roots
  }

  /** Keep every root but the unanswered one that left. */
  function Left(roots: seq<Root>, path: Path): seq<Root> {
    if roots == [] then []
    else (if roots[0].path != path || roots[0].result.Some? then [roots[0]] else []) + Left(roots[1..], path)
  }

  predicate AllAnswered(roots: seq<Root>) {
    forall i :: 0 <= i < |roots| ==> roots[i].result.Some?
  }

  ghost predicate PathsDiffer(roots: seq<Root>) {
    forall i, j :: 0 <= i < j < |roots| ==> roots[i].path != roots[j].path
  }

  // ---- What a scan hears of its roots ----

  datatype RootEvent =
    | Begun(path: Path)
    | Answered(path: Path, result: Outcome)
    | Gone(path: Path)

  function Heard(roots: seq<Root>, e: RootEvent): seq<Root> {
    match e
    case Begun(path) => Started(roots, path)
    case Answered(path, result) => Finished(roots, path, result)
    case Gone(path) => Left(roots, path)
  }

  function RootsAfter(events: seq<RootEvent>): seq<Root> {
    if events == [] then []
    else Heard(RootsAfter(events[..|events| - 1]), events[|events| - 1])
  }

  // ---- One root at a time ----

  datatype Slot = Absent | Pending | Done(result: Outcome)

  /** What an event about a root does to it, whatever the other roots. */
  function Moved(slot: Slot, e: RootEvent): Slot {
    match (slot, e)
    case (Absent, Begun(_)) => Pending
    case (Pending, Answered(_, result)) => Done(result)
    case (Pending, Gone(_)) => Absent
    case _ => slot
  }

  /** The history of one root, on its own. */
  function SlotAfter(events: seq<RootEvent>, path: Path): Slot {
    if events == [] then Absent
    else
      var before, e := SlotAfter(events[..|events| - 1], path), events[|events| - 1];
      if e.path == path then Moved(before, e) else before
  }

  function SlotOf(roots: seq<Root>, path: Path): Slot {
    var i := Position(roots, path);
    if i == |roots| then Absent else StateOf(roots[i])
  }

  function StateOf(root: Root): Slot {
    match root.result
    case None => Pending
    case Some(result) => Done(result)
  }

  lemma PositionIs(roots: seq<Root>, path: Path, i: nat)
    requires i <= |roots| && (i < |roots| ==> roots[i].path == path)
    requires forall k :: 0 <= k < i ==> roots[k].path != path
    ensures Position(roots, path) == i
  {
  }

  lemma FirstSlot(first: Root, rest: seq<Root>, path: Path)
    ensures SlotOf([first] + rest, path)
         == if first.path == path then StateOf(first) else SlotOf(rest, path)
  {
    var roots := [first] + rest;
    assert roots[1..] == rest;
  }

  lemma {:induction false} LeftOnlyDrops(roots: seq<Root>, path: Path)
    requires PathsDiffer(roots)
    ensures PathsDiffer(Left(roots, path))
    ensures forall r :: r in Left(roots, path) ==> r in roots
  {
    if roots != [] {
      LeftOnlyDrops(roots[1..], path);
      var left := Left(roots[1..], path);
      forall i | 0 <= i < |left|
        ensures left[i].path != roots[0].path
      {
        assert left[i] in left && left[i] in roots[1..];
      }
    }
  }

  /** Leaving touches the one root, and the count only if it was waited on. */
  lemma {:induction false} LeftMovesOneSlot(roots: seq<Root>, path: Path, other: Path)
    requires PathsDiffer(roots)
    ensures SlotOf(Left(roots, path), other)
         == if other == path then Moved(SlotOf(roots, path), Gone(path)) else SlotOf(roots, other)
    ensures |Left(roots, path)| == |roots| - if SlotOf(roots, path).Pending? then 1 else 0
  {
    if roots != [] {
      var first, rest := roots[0], roots[1..];
      assert roots == [first] + rest;
      LeftMovesOneSlot(rest, path, other);
      FirstSlot(first, rest, path);
      FirstSlot(first, rest, other);
      FirstSlot(first, Left(rest, path), other);
      PositionIs(rest, first.path, |rest|);
      assert Left(roots, path)
          == if first.path == path && first.result.None? then Left(rest, path) else [first] + Left(rest, path);
    }
  }

  lemma StartedMovesOneSlot(roots: seq<Root>, path: Path, other: Path)
    requires PathsDiffer(roots)
    ensures PathsDiffer(Started(roots, path))
    ensures SlotOf(Started(roots, path), other)
         == if other == path then Moved(SlotOf(roots, path), Begun(path)) else SlotOf(roots, other)
  {
    var next, i := Started(roots, path), Position(roots, other);
    if i < |roots| {
      PositionIs(next, other, i);
    } else if other != path {
      PositionIs(next, other, |next|);
    } else {
      PositionIs(next, other, |roots|);
    }
  }

  lemma FinishedMovesOneSlot(roots: seq<Root>, path: Path, result: Outcome, other: Path)
    requires PathsDiffer(roots)
    ensures PathsDiffer(Finished(roots, path, result))
    ensures SlotOf(Finished(roots, path, result), other)
         == if other == path then Moved(SlotOf(roots, path), Answered(path, result)) else SlotOf(roots, other)
  {
    var next := Finished(roots, path, result);
    assert |next| == |roots| && forall i :: 0 <= i < |roots| ==> next[i].path == roots[i].path;
    PositionIs(next, other, Position(roots, other));
  }

  lemma HeardMovesOneSlot(roots: seq<Root>, e: RootEvent, path: Path)
    requires PathsDiffer(roots)
    ensures PathsDiffer(Heard(roots, e))
    ensures SlotOf(Heard(roots, e), path)
         == if e.path == path then Moved(SlotOf(roots, path), e) else SlotOf(roots, path)
  {
    match e
    case Begun(p) => StartedMovesOneSlot(roots, p, path);
    case Answered(p, result) => FinishedMovesOneSlot(roots, p, result, path);
    case Gone(p) =>
      LeftOnlyDrops(roots, p);
      LeftMovesOneSlot(roots, p, path);
  }

  /** The list holds every root once, in the state its own history gives it: the
      first result wins, and roots do not touch one another. */
  lemma {:induction false} RootsFollowTheirHistories(events: seq<RootEvent>, path: Path)
    ensures PathsDiffer(RootsAfter(events))
    ensures SlotOf(RootsAfter(events), path) == SlotAfter(events, path)
  {
    if events != [] {
      var before := events[..|events| - 1];
      RootsFollowTheirHistories(before, path);
      HeardMovesOneSlot(RootsAfter(before), events[|events| - 1], path);
    }
  }

  predicate IsAbout(e: RootEvent, path: Path) {
    e.path == path
  }

  lemma {:induction false} OnlyItsOwnEventsMatter(events: seq<RootEvent>, path: Path)
    ensures SlotAfter(events, path) == SlotAfter(Filter(events, e => IsAbout(e, path)), path)
  {
    if events != [] {
      var before, e := events[..|events| - 1], events[|events| - 1];
      var own := e => IsAbout(e, path);
      OnlyItsOwnEventsMatter(before, path);
      assert events == before + [e];
      FilterConcat(before, [e], own);
      if IsAbout(e, path) {
        assert Filter([e], own) == [e];
        var kept := Filter(events, own);
        assert kept[..|kept| - 1] == Filter(before, own);
      } else {
        assert Filter([e], own) == [];
        assert Filter(events, own) == Filter(before, own);
      }
    }
  }

  /** Once answered, a root keeps that answer for the rest of the scan. */
  lemma {:induction false} FirstResultWins(events: seq<RootEvent>, more: seq<RootEvent>, path: Path)
    requires SlotAfter(events, path).Done?
    ensures SlotAfter(events + more, path) == SlotAfter(events, path)
  {
    if more == [] {
      assert events + more == events;
    } else {
      var all, before := events + more, more[..|more| - 1];
      FirstResultWins(events, before, path);
      assert all[..|all| - 1] == events + before;
    }
  }

  // ---- The total ----

  /** Registrations that added a root, and departures that removed one. */
  function Joined(events: seq<RootEvent>): nat {
    if events == [] then 0
    else
      var before, e := events[..|events| - 1], events[|events| - 1];
      Joined(before) + if e.Begun? && SlotAfter(before, e.path).Absent? then 1 else 0
  }

  function Departed(events: seq<RootEvent>): nat {
    if events == [] then 0
    else
      var before, e := events[..|events| - 1], events[|events| - 1];
      Departed(before) + if e.Gone? && SlotAfter(before, e.path).Pending? then 1 else 0
  }

  /** A scan counts the roots registered less those that left unanswered. */
  lemma {:induction false} TotalIsJoinedLessDeparted(events: seq<RootEvent>)
    ensures |RootsAfter(events)| == Joined(events) - Departed(events)
  {
    if events != [] {
      var before, e := events[..|events| - 1], events[|events| - 1];
      TotalIsJoinedLessDeparted(before);
      RootsFollowTheirHistories(before, e.path);
      if e.Gone? {
        LeftMovesOneSlot(RootsAfter(before), e.path, e.path);
      }
    }
  }

  /** Nothing is left to wait for exactly when no root's history is open. */
  lemma AllAnsweredExactlyWhen(events: seq<RootEvent>)
    ensures AllAnswered(RootsAfter(events)) <==> forall path :: SlotAfter(events, path) != Pending
  {
    var roots := RootsAfter(events);
    forall path
      ensures SlotAfter(events, path) == SlotOf(roots, path) && PathsDiffer(roots)
    {
      RootsFollowTheirHistories(events, path);
    }
    if !AllAnswered(roots) {
      var i :| 0 <= i < |roots| && roots[i].result.None?;
      RootsFollowTheirHistories(events, roots[i].path);
      PositionIs(roots, roots[i].path, i);
      assert SlotAfter(events, roots[i].path) == Pending;
    }
  }
}
