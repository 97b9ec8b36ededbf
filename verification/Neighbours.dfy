/** The session next to another in an order, which two orders have the same
    neighbours, and whose neighbour takes over when a tab closes. */
module Neighbours {
  import opened AppState
  import opened CloseLandings
  import opened CloseSessions
  import opened DisplayOrder
  import opened Options
  import opened RingRepeats
  import opened Seqs
  import opened SessionRing
  import opened Sessions
  import opened StableSort

  /** The successor of an element, or for the last one its predecessor. */
  function Neighbour<T>(ids: seq<T>, k: nat): Option<T>
    requires k < |ids|
  {
    if k + 1 < |ids| then Some(ids[k + 1]) else if k > 0 then Some(ids[k - 1]) else None
  }

  function NeighbourOf<T(==)>(ids: seq<T>, id: T): Option<T>
    requires id in ids
  {
    Neighbour(ids, IndexOf(ids, id))
  }

  lemma NeighbourAt<T>(ids: seq<T>, k: nat)
    requires Distinct(ids) && k < |ids|
    ensures ids[k] in ids && NeighbourOf(ids, ids[k]) == Neighbour(ids, k)
  {
    SamePlace(ids, IndexOf(ids, ids[k]), k);
  }

  // ---- Two orders with the same neighbours ----

  ghost predicate SameNeighbours(a: seq<nat>, b: seq<nat>)
    requires Elements(a) == Elements(b)
  {
    forall id :: id in a ==> id in Elements(b) && NeighbourOf(a, id) == NeighbourOf(b, id)
  }

  /** Nobody's neighbour is the first of three or more. */
  lemma FirstIsNoNeighbour(ids: seq<nat>, id: nat)
    requires Distinct(ids) && |ids| > 2 && id in ids
    ensures NeighbourOf(ids, id) != Some(ids[0])
  {
  }

  lemma SameFirst(a: seq<nat>, b: seq<nat>)
    requires Distinct(a) && Distinct(b) && Elements(a) == Elements(b) && |a| > 2 && |b| > 2
    requires SameNeighbours(a, b)
    ensures a[0] == b[0]
  {
    assert b[0] in Elements(a);
    var m := IndexOf(a, b[0]);
    if m > 0 {
      NeighbourAt(a, m - 1);
      assert a[m - 1] in Elements(b);
      FirstIsNoNeighbour(b, a[m - 1]);
    }
  }

  lemma {:induction false} SamePrefix(a: seq<nat>, b: seq<nat>, n: nat)
    requires Distinct(a) && Distinct(b) && Elements(a) == Elements(b) && |a| == |b| > 2
    requires SameNeighbours(a, b) && n <= |a|
    ensures a[..n] == b[..n]
  {
    if n == 1 {
      SameFirst(a, b);
    } else if n > 1 {
      SamePrefix(a, b, n - 1);
      assert a[n - 2] == a[..n - 1][n - 2] && b[n - 2] == b[..n - 1][n - 2];
      NeighbourAt(a, n - 2);
      NeighbourAt(b, n - 2);
      assert a[..n] == a[..n - 1] + [a[n - 1]] && b[..n] == b[..n - 1] + [b[n - 1]];
    }
  }

  lemma TwoHaveTheSameNeighbours(a: seq<nat>, b: seq<nat>)
    requires Distinct(a) && Distinct(b) && Elements(a) == Elements(b) && |a| == |b| <= 2
    ensures SameNeighbours(a, b)
  {
    forall id | id in a
      ensures id in Elements(b) && NeighbourOf(a, id) == NeighbourOf(b, id)
    {
      assert id in Elements(a) && id in Elements(b);
      if |a| == 2 {
        assert a[0] in Elements(b) && a[1] in Elements(b);
        NeighbourAt(a, 0);
        NeighbourAt(a, 1);
        NeighbourAt(b, 0);
        NeighbourAt(b, 1);
      }
    }
  }

  /** Orders of the same elements have the same neighbours exactly when they are
      the same order, or have two elements at most. */
  lemma SameNeighboursExactlyWhen(a: seq<nat>, b: seq<nat>)
    requires Distinct(a) && Distinct(b) && Elements(a) == Elements(b)
    ensures SameNeighbours(a, b) <==> |a| <= 2 || a == b
  {
    DistinctCount(a);
    DistinctCount(b);
    if |a| <= 2 {
      TwoHaveTheSameNeighbours(a, b);
    } else if SameNeighbours(a, b) {
      SamePrefix(a, b, |a|);
      assert a[..|a|] == a && b[..|b|] == b;
    }
  }

  // ---- The list's neighbour and the display's ----

  /** A workspace's sessions as the list holds them. */
  function ListedIds(sessions: seq<Session>, ws: Workspace): seq<nat> {
    Map(Filter(sessions, InWorkspace(ws)), Id())
  }

  lemma {:induction false} MapIdsDistinct(s: seq<Session>)
    requires DistinctIds(s)
    ensures Distinct(Map(s, Id()))
  {
  }

  lemma OrdersOfTheSame(sessions: seq<Session>, ranks: Ranks, ws: Workspace)
    requires DistinctIds(sessions)
    ensures var listed, displayed := ListedIds(sessions, ws), DisplayedIds(sessions, ranks, ws);
            Distinct(listed) && Distinct(displayed) && Elements(listed) == Elements(displayed)
  {
    var own := Filter(sessions, InWorkspace(ws));
    var shown := Sort(own, Before(ranks));
    FilterKeepsDistinctIds(sessions, InWorkspace(ws));
    SortPermutes(own, Before(ranks));
    IdsApart(own, shown);
    SortedElements(own, ranks);
    MapElements(own);
    MapElements(shown);
    assert Elements(own) == Elements(shown);
  }

  lemma MapElements(s: seq<Session>)
    ensures forall id :: id in Map(s, Id()) <==> exists x :: x in s && x.id == id
  {
    var ids := Map(s, Id());
    forall x | x in s
      ensures x.id in ids
    {
      var i := IndexIn(s, x);
      assert ids[i] == x.id;
    }
  }

  /** The sibling that takes over the active entry under follow is the list's
      neighbour. */
  lemma CloseTakesTheListNeighbour(sessions: seq<Session>, idx: nat)
    requires DistinctIds(sessions) && idx < |sessions|
    ensures var x := sessions[idx];
            && x.id in ListedIds(sessions, x.workspace)
            && SiblingAfter(RemoveAt(sessions, idx), x.workspace, idx, true) == NeighbourOf(ListedIds(sessions, x.workspace), x.id)
  {
    var x, p := sessions[idx], InWorkspace(sessions[idx].workspace);
    var before, behind := Filter(sessions[..idx], p), Filter(sessions[idx + 1..], p);
    FilterAt(sessions, idx, p);
    SiblingBesideOne(sessions, idx);
    var ids, k := ListedIds(sessions, x.workspace), |before|;
    assert Filter(sessions, p) == before + [x] + behind;
    FilterKeepsDistinctIds(sessions, p);
    MapIdsDistinct(before + [x] + behind);
    assert ids[k] == x.id;
    NeighbourAt(ids, k);
  }

  // ---- The ring's neighbour ----

  /** The sibling that takes over is the session the program's ring lands on. */
  ghost predicate RingAgrees(sessions: seq<Session>, ranks: Ranks, order: Order, idx: nat)
    requires idx < |sessions|
  {
    SiblingAfter(RemoveAt(sessions, idx), sessions[idx].workspace, idx, true)
    == LandingId(RingOf(sessions, ranks, order), sessions[idx].id)
  }

  /** The global ring steps through a workspace in display order, and on through
      the others. It lands where the sibling rule does, whichever of the
      workspace's tabs closes, exactly when nothing follows the workspace in the
      ring, it has another tab or nothing comes before it either, and its list
      is in display order or has two tabs at most. */
  lemma RingAgreesExactlyWhen(sessions: seq<Session>, ranks: Ranks, front: Order, x: (Workspace, Option<string>), back: Order)
    requires DistinctIds(sessions) && !Lists(front, x.0) && !Lists(back, x.0)
    ensures var listed, displayed := ListedIds(sessions, x.0), DisplayedIds(sessions, ranks, x.0);
            (forall idx :: 0 <= idx < |sessions| && sessions[idx].workspace == x.0 ==>
               RingAgrees(sessions, ranks, front + [x] + back, idx))
            <==> listed == []
                 || (&& RingOf(sessions, ranks, back) == []
                     && (|listed| > 1 || RingOf(sessions, ranks, front) == [])
                     && (|listed| <= 2 || displayed == listed))
  {
    var listed, displayed := ListedIds(sessions, x.0), DisplayedIds(sessions, ranks, x.0);
    var ahead, behind := RingOf(sessions, ranks, front), RingOf(sessions, ranks, back);
    OrdersOfTheSame(sessions, ranks, x.0);
    EachIsBeyond(sessions, ranks, front, x, back);
    BeyondAgreesExactlyWhen(ahead, listed, displayed, behind);
    if forall idx :: 0 <= idx < |sessions| && sessions[idx].workspace == x.0 ==> RingAgrees(sessions, ranks, front + [x] + back, idx) {
      EachHasASession(sessions, x.0);
    }
  }

  lemma EachIsBeyond(sessions: seq<Session>, ranks: Ranks, front: Order, x: (Workspace, Option<string>), back: Order)
    requires DistinctIds(sessions) && !Lists(front, x.0) && !Lists(back, x.0)
    ensures var listed, displayed := ListedIds(sessions, x.0), DisplayedIds(sessions, ranks, x.0);
            var ahead, behind := RingOf(sessions, ranks, front), RingOf(sessions, ranks, back);
            && (forall id :: id in listed ==> id in displayed && Lacks(ahead, id) && Lacks(behind, id))
            && forall idx :: 0 <= idx < |sessions| && sessions[idx].workspace == x.0 ==>
                 && sessions[idx].id in listed && sessions[idx].id in displayed
                 && (RingAgrees(sessions, ranks, front + [x] + back, idx)
                     <==> NeighbourOf(listed, sessions[idx].id) == Beyond(ahead, displayed, behind, sessions[idx].id))
  {
    var listed, displayed := ListedIds(sessions, x.0), DisplayedIds(sessions, ranks, x.0);
    OrdersOfTheSame(sessions, ranks, x.0);
    forall id
      ensures id in listed <==> id in displayed
    {
      assert id in Elements(listed) <==> id in Elements(displayed);
    }
    forall id | id in displayed
      ensures Lacks(RingOf(sessions, ranks, front), id) && Lacks(RingOf(sessions, ranks, back), id)
    {
      RingLandsBeyond(sessions, ranks, front, x, back, id);
    }
    forall idx: nat | idx < |sessions| && sessions[idx].workspace == x.0
      ensures sessions[idx].id in listed && sessions[idx].id in displayed
      ensures RingAgrees(sessions, ranks, front + [x] + back, idx)
         <==> NeighbourOf(listed, sessions[idx].id)
              == Beyond(RingOf(sessions, ranks, front), displayed, RingOf(sessions, ranks, back), sessions[idx].id)
    {
      CloseTakesTheListNeighbour(sessions, idx);
      RingLandsBeyond(sessions, ranks, front, x, back, sessions[idx].id);
    }
  }

  /** The neighbour on display, or past its ends the ring's. */
  function Beyond(ahead: Ring, ids: seq<nat>, behind: Ring, id: nat): Option<nat>
    requires id in ids
  {
    var k := IndexOf(ids, id);
    if k + 1 < |ids| then Some(ids[k + 1])
    else if behind != [] then Some(behind[0].id)
    else if k > 0 then Some(ids[k - 1])
    else if ahead != [] then Some(ahead[|ahead| - 1].id)
    else None
  }

  ghost predicate BeyondAgrees(ahead: Ring, listed: seq<nat>, displayed: seq<nat>, behind: Ring) {
    forall id :: id in listed ==> id in displayed && NeighbourOf(listed, id) == Beyond(ahead, displayed, behind, id)
  }

  lemma BeyondAgreesExactlyWhen(ahead: Ring, listed: seq<nat>, displayed: seq<nat>, behind: Ring)
    requires Distinct(listed) && Distinct(displayed) && Elements(listed) == Elements(displayed)
    requires forall id :: id in listed ==> Lacks(ahead, id) && Lacks(behind, id)
    ensures BeyondAgrees(ahead, listed, displayed, behind)
       <==> listed == [] || (behind == [] && (|listed| > 1 || ahead == []) && (|listed| <= 2 || displayed == listed))
  {
    SameNeighboursExactlyWhen(listed, displayed);
    DistinctCount(listed);
    DistinctCount(displayed);
    forall id
      ensures id in listed <==> id in displayed
    {
      assert id in Elements(listed) <==> id in Elements(displayed);
    }
    if listed != [] {
      if BeyondAgrees(ahead, listed, displayed, behind) {
        NothingBeyond(ahead, listed, displayed, behind);
      }
      if behind == [] && (|listed| > 1 || ahead == []) {
        forall id | id in listed
          ensures id in displayed && Beyond(ahead, displayed, behind, id) == NeighbourOf(displayed, id)
        {}
      }
    }
  }

  /** The tab displayed last would otherwise be followed by another workspace's. */
  lemma NothingBeyond(ahead: Ring, listed: seq<nat>, displayed: seq<nat>, behind: Ring)
    requires Distinct(displayed) && |listed| == |displayed| > 0 && forall id :: id in listed <==> id in displayed
    requires forall id :: id in listed ==> Lacks(ahead, id) && Lacks(behind, id)
    requires BeyondAgrees(ahead, listed, displayed, behind)
    ensures behind == [] && (|listed| > 1 || ahead == [])
  {
    var last := displayed[|displayed| - 1];
    SamePlace(displayed, IndexOf(displayed, last), |displayed| - 1);
    assert last in listed;
    var next := NeighbourOf(listed, last);
    if next.Some? {
      assert next.value in listed;
      assert Lacks(ahead, next.value) && Lacks(behind, next.value);
    }
  }

  lemma RingLandsBeyond(sessions: seq<Session>, ranks: Ranks, front: Order, x: (Workspace, Option<string>), back: Order, id: nat)
    requires DistinctIds(sessions) && !Lists(front, x.0) && !Lists(back, x.0) && id in DisplayedIds(sessions, ranks, x.0)
    ensures LandingId(RingOf(sessions, ranks, front + [x] + back), id)
         == Beyond(RingOf(sessions, ranks, front), DisplayedIds(sessions, ranks, x.0), RingOf(sessions, ranks, back), id)
    ensures Lacks(RingOf(sessions, ranks, front), id) && Lacks(RingOf(sessions, ranks, back), id)
  {
    var a, b, c := RingOf(sessions, ranks, front), RingOf(sessions, ranks, [x]), RingOf(sessions, ranks, back);
    RingOfConcat(sessions, ranks, front + [x], back);
    RingOfConcat(sessions, ranks, front, [x]);
    BlockIdsDiffer(sessions, ranks, x);
    BlockShowsDisplayedIds(sessions, ranks, x);
    OtherBlocksAreApart(sessions, ranks, x, front);
    OtherBlocksAreApart(sessions, ranks, x, back);
    BlockLandsBeyond(a, b, c, DisplayedIds(sessions, ranks, x.0), id);
  }

  lemma BlockShowsDisplayedIds(sessions: seq<Session>, ranks: Ranks, x: (Workspace, Option<string>))
    ensures var block, ids := RingOf(sessions, ranks, [x]), DisplayedIds(sessions, ranks, x.0);
            |block| == |ids| && forall k :: 0 <= k < |ids| ==> block[k].id == ids[k]
  {
    var shown := Sort(Filter(sessions, InWorkspace(x.0)), Before(ranks));
    assert [x][1..] == [];
    assert RingOf(sessions, ranks, [x]) == Entries(shown, x.1) + RingOf(sessions, ranks, []);
  }

  lemma LacksConcat(a: Ring, b: Ring, id: nat)
    requires Lacks(a, id) && Lacks(b, id)
    ensures Lacks(a + b, id)
  {
  }

  lemma BlockLandsBeyond(a: Ring, b: Ring, c: Ring, ids: seq<nat>, id: nat)
    requires |b| == |ids| && (forall k :: 0 <= k < |ids| ==> b[k].id == ids[k]) && id in ids
    requires forall k, l :: 0 <= k < |b| && 0 <= l < |b| && b[k].id == b[l].id ==> k == l
    requires IdsApartFrom(b, a) && IdsApartFrom(b, c)
    ensures LandingId(a + b + c, id) == Beyond(a, ids, c, id) && Lacks(a, id) && Lacks(c, id)
  {
    var k := IndexOf(ids, id);
    assert Lacks(b[..k], id) && Lacks(b[k + 1..], id) && Lacks(a, id) && Lacks(c, id);
    SlotLandsBeyond(a, b, c, k);
  }

  lemma SlotLandsBeyond(a: Ring, b: Ring, c: Ring, k: nat)
    requires k < |b| && Lacks(b[..k], b[k].id) && Lacks(b[k + 1..], b[k].id) && Lacks(a, b[k].id) && Lacks(c, b[k].id)
    ensures LandingId(a + b + c, b[k].id)
         == if k + 1 < |b| then Some(b[k + 1].id)
            else if c != [] then Some(c[0].id)
            else if k > 0 then Some(b[k - 1].id)
            else if a != [] then Some(a[|a| - 1].id)
            else None
  {
    LacksConcat(a, b[..k], b[k].id);
    LacksConcat(b[k + 1..], c, b[k].id);
    AroundOne(a, b, c, k);
    RingBesideOne(a + b[..k], b[k], b[k + 1..] + c);
  }

  lemma AroundOne<T>(a: seq<T>, b: seq<T>, c: seq<T>, k: nat)
    requires k < |b|
    ensures a + b + c == (a + b[..k]) + [b[k]] + (b[k + 1..] + c)
  {
  }

  lemma EachHasASession(sessions: seq<Session>, ws: Workspace)
    ensures forall id :: id in ListedIds(sessions, ws) ==>
              exists idx :: 0 <= idx < |sessions| && sessions[idx].workspace == ws && sessions[idx].id == id
  {
    MapElements(Filter(sessions, InWorkspace(ws)));
    FilterElements(sessions, InWorkspace(ws));
    forall id | id in ListedIds(sessions, ws)
      ensures exists idx :: 0 <= idx < |sessions| && sessions[idx].workspace == ws && sessions[idx].id == id
    {
      var x :| x in Filter(sessions, InWorkspace(ws)) && x.id == id;
      var idx := IndexIn(sessions, x);
    }
  }

  /** Without a multiplexer's panes the list is in display order. */
  lemma ShellsAgree(sessions: seq<Session>, ranks: Ranks, ws: Workspace)
    requires DistinctIds(sessions)
    requires forall x :: x in sessions && x.workspace == ws ==> x.pane.None?
    ensures DisplayedIds(sessions, ranks, ws) == ListedIds(sessions, ws)
  {
    var own := Filter(sessions, InWorkspace(ws));
    FilterElements(sessions, InWorkspace(ws));
    DisplayOrderInBlocks(own, ranks);
    FilterAll(own, IsShell());
    FilterNone(own, HasPane());
  }
}
