/** The sibling a workspace switches to when a session closes, and its agreement
    with a ring of the workspace's own list. */
module CloseLandings {
  import opened Options
  import opened Seqs
  import opened SessionRing
  import opened Sessions

  function FirstIn(sessions: seq<Session>, ws: Workspace, i: nat): (r: Option<nat>)
    requires i <= |sessions|
    ensures r.Some? ==> i <= r.value < |sessions| && sessions[r.value].workspace == ws
    decreases |sessions| - i
  {
    if i == |sessions| then None
    else if sessions[i].workspace == ws then Some(i)
    else FirstIn(sessions, ws, i + 1)
  }

  function LastIn(sessions: seq<Session>, ws: Workspace, i: nat): (r: Option<nat>)
    requires i <= |sessions|
    ensures r.Some? ==> r.value < i && sessions[r.value].workspace == ws
  {
    if i == 0 then None
    else if sessions[i - 1].workspace == ws then Some(i - 1)
    else LastIn(sessions, ws, i - 1)
  }

  function IdAt(sessions: seq<Session>, slot: Option<nat>): Option<nat>
    requires slot.Some? ==> slot.value < |sessions|
  {
    if slot.None? then None else Some(sessions[slot.value].id)
  }

  /** The sibling that takes over after a removal at `removedIdx`. */
  function SiblingAfter(sessions: seq<Session>, ws: Workspace, removedIdx: nat, follows: bool): Option<nat>
    requires removedIdx <= |sessions|
  {
    if !follows then IdAt(sessions, FirstIn(sessions, ws, 0))
    else
      var next := FirstIn(sessions, ws, removedIdx);
      IdAt(sessions, if next.Some? then next else LastIn(sessions, ws, removedIdx))
  }

  method CloseLanding(sessions: seq<Session>, ws: Workspace, removedIdx: nat, follows: bool) returns (r: Option<nat>)
    requires removedIdx <= |sessions|
    ensures r == SiblingAfter(sessions, ws, removedIdx, follows)
  {
    var predecessor: Option<nat> := None;
    for i := 0 to |sessions|
      invariant !follows ==> FirstIn(sessions, ws, 0) == FirstIn(sessions, ws, i) && predecessor.None?
      invariant follows && i <= removedIdx ==> predecessor == IdAt(sessions, LastIn(sessions, ws, i))
      invariant follows && i > removedIdx ==> predecessor == IdAt(sessions, LastIn(sessions, ws, removedIdx))
      invariant follows && i > removedIdx ==> FirstIn(sessions, ws, removedIdx) == FirstIn(sessions, ws, i)
    {
      if sessions[i].workspace != ws {
        continue;
      }
      if !follows {
        return Some(sessions[i].id);
      }
      if i >= removedIdx {
        return Some(sessions[i].id);
      }
      predecessor := Some(sessions[i].id);
    }
    return predecessor;
  }

  // ---- Agreement with the ring ----

  lemma {:induction false} FirstInIsHead(sessions: seq<Session>, ws: Workspace, i: nat)
    requires i <= |sessions|
    ensures var rest := Filter(sessions[i..], InWorkspace(ws));
            IdAt(sessions, FirstIn(sessions, ws, i)) == if rest == [] then None else Some(rest[0].id)
    decreases |sessions| - i
  {
    if i < |sessions| {
      FirstInIsHead(sessions, ws, i + 1);
      assert sessions[i..][1..] == sessions[i + 1..];
    }
  }

  lemma {:induction false} LastInIsLast(sessions: seq<Session>, ws: Workspace, i: nat)
    requires i <= |sessions|
    ensures var rest := Filter(sessions[..i], InWorkspace(ws));
            IdAt(sessions, LastIn(sessions, ws, i)) == if rest == [] then None else Some(rest[|rest| - 1].id)
  {
    if i > 0 {
      LastInIsLast(sessions, ws, i - 1);
      assert sessions[..i] == sessions[..i - 1] + [sessions[i - 1]];
      FilterConcat(sessions[..i - 1], [sessions[i - 1]], InWorkspace(ws));
    }
  }

  /** One workspace's part of the ring, in list order. */
  function Entries(sessions: seq<Session>, project: Option<string>): (r: Ring)
    ensures |r| == |sessions|
    ensures forall i :: 0 <= i < |r| ==> r[i] == RingEntry(project, sessions[i].workspace, sessions[i].id)
  {
    Map(sessions, (s: Session) => RingEntry(project, s.workspace, s.id))
  }

  ghost predicate Lacks(ring: Ring, id: nat) {
    forall k :: 0 <= k < |ring| ==> ring[k].id != id
  }

  function LandingId(ring: Ring, id: nat): Option<nat> {
    var landing := RingLanding(ring, [id], None);
    if landing.None? then None else Some(landing.value.1)
  }

  /** Where a ring lands when one of its entries alone is removed. */
  lemma RingBesideOne(before: Ring, e: RingEntry, after: Ring)
    requires Lacks(before, e.id) && Lacks(after, e.id)
    ensures LandingId(before + [e] + after, e.id)
         == if after != [] then Some(after[0].id) else if before != [] then Some(before[|before| - 1].id) else None
  {
    var ring, at := before + [e] + after, |before|;
    assert ring[at] == e;
    forall k | 0 <= k < |ring| && k != at
      ensures ring[k].id != e.id
    {
      assert ring[k] == if k < at then before[k] else after[k - at - 1];
    }
    assert RingPosition(ring, e.id) == Some(at);
    assert [e.id][1..] == [];
    assert Positions(ring, [e.id]) == [at];
    if after != [] {
      assert ring[at + 1] == after[0];
    } else if before != [] {
      assert ring[at - 1] == before[at - 1];
    }
  }

  /** The landing among before + [x] + after when x alone is removed. */
  lemma LandingBesideOne(before: seq<Session>, x: Session, after: seq<Session>, project: Option<string>)
    requires DistinctIds(before + [x] + after)
    ensures LandingId(Entries(before + [x] + after, project), x.id)
         == if after != [] then Some(after[0].id) else if before != [] then Some(before[|before| - 1].id) else None
  {
    var all := before + [x] + after;
    forall k | 0 <= k < |before|
      ensures before[k].id != x.id
    {
      assert all[k] == before[k] && all[|before|] == x;
    }
    forall k | 0 <= k < |after|
      ensures after[k].id != x.id
    {
      assert all[|before| + 1 + k] == after[k] && all[|before|] == x;
    }
    var ring := Entries(before, project) + [RingEntry(project, x.workspace, x.id)] + Entries(after, project);
    assert Entries(all, project) == ring;
    RingBesideOne(Entries(before, project), RingEntry(project, x.workspace, x.id), Entries(after, project));
  }

  /** The workspace's sessions around one list position keep distinct ids. */
  lemma {:induction false} FilterKeepsDistinctIds(sessions: seq<Session>, p: Session -> bool)
    requires DistinctIds(sessions)
    ensures DistinctIds(Filter(sessions, p))
  {
    GatherWhere(sessions, p);
    var indices := Where(sessions, p);
    assert Filter(sessions, p) == Walks.Gather(sessions, indices);
  }

  /** Closing one session under follow, the workspace switches to the session that
      a ring of its own list would land on. */
  lemma CloseLandingMatchesTheRing(sessions: seq<Session>, idx: nat, project: Option<string>)
    requires DistinctIds(sessions) && idx < |sessions|
    ensures var x := sessions[idx];
            SiblingAfter(RemoveAt(sessions, idx), x.workspace, idx, true)
            == LandingId(Entries(Filter(sessions, InWorkspace(x.workspace)), project), x.id)
  {
    var x, p := sessions[idx], InWorkspace(sessions[idx].workspace);
    var before, behind := Filter(sessions[..idx], p), Filter(sessions[idx + 1..], p);
    FilterAt(sessions, idx, p);
    assert Filter(sessions, p) == before + [x] + behind;
    FilterKeepsDistinctIds(sessions, p);
    LandingBesideOne(before, x, behind, project);
    SiblingBesideOne(sessions, idx);
  }

  lemma SiblingBesideOne(sessions: seq<Session>, idx: nat)
    requires idx < |sessions|
    ensures var p := InWorkspace(sessions[idx].workspace);
            var before, behind := Filter(sessions[..idx], p), Filter(sessions[idx + 1..], p);
            SiblingAfter(RemoveAt(sessions, idx), sessions[idx].workspace, idx, true)
            == if behind != [] then Some(behind[0].id)
               else if before != [] then Some(before[|before| - 1].id) else None
  {
    var after := RemoveAt(sessions, idx);
    assert after[..idx] == sessions[..idx] && after[idx..] == sessions[idx + 1..];
    FirstInIsHead(after, sessions[idx].workspace, idx);
    LastInIsLast(after, sessions[idx].workspace, idx);
  }
}
