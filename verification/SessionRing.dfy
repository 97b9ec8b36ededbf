/** The flat ring of sessions, and the session a removal lands on. */
module SessionRing {
  import opened Options
  import opened Sessions

  datatype RingEntry = RingEntry(project: Option<string>, workspace: Workspace, id: nat)

  type Ring = seq<RingEntry>

  function RingPosition(ring: Ring, id: nat): (r: Option<nat>)
    ensures r.Some? ==> r.value < |ring| && ring[r.value].id == id
    ensures r.Some? ==> forall i :: 0 <= i < r.value ==> ring[i].id != id
    ensures r.None? ==> forall i :: 0 <= i < |ring| ==> ring[i].id != id
  {
    if ring == [] then None
    else if ring[0].id == id then Some(0)
    else
      match RingPosition(ring[1..], id)
      case None => None
      case Some(i) => Some(i + 1)
  }

  function Positions(ring: Ring, removed: seq<nat>): (r: seq<nat>)
    ensures forall p :: p in r ==> p < |ring| && ring[p].id in removed
  {
    if removed == [] then []
    else
      var rest := Positions(ring, removed[1..]);
      match RingPosition(ring, removed[0])
      case None => rest
      case Some(p) => [p] + rest
  }

  function Least(s: seq<nat>): (r: nat)
    requires s != []
    ensures r in s && forall x :: x in s ==> r <= x
  {
    if |s| == 1 then s[0]
    else
      var rest := Least(s[1..]);
      assert s == [s[0]] + s[1..];
      if s[0] <= rest then s[0] else rest
  }

  function Greatest(s: seq<nat>): (r: nat)
    requires s != []
    ensures r in s && forall x :: x in s ==> x <= r
  {
    if |s| == 1 then s[0]
    else
      var rest := Greatest(s[1..]);
      assert s == [s[0]] + s[1..];
      if s[0] >= rest then s[0] else rest
  }

  predicate InGroup(e: RingEntry, group: Option<string>) {
    group.None? || e.project == group
  }

  /** A landing candidate: in the group, and not among the removed. */
  predicate Survives(e: RingEntry, group: Option<string>, removed: seq<nat>) {
    InGroup(e, group) && e.id !in removed
  }

  function FirstFrom(ring: Ring, i: nat, group: Option<string>, removed: seq<nat>): (r: Option<nat>)
    requires i <= |ring|
    ensures r.Some? ==> i <= r.value < |ring| && Survives(ring[r.value], group, removed)
    ensures r.Some? ==> forall k :: i <= k < r.value ==> !Survives(ring[k], group, removed)
    ensures r.None? ==> forall k :: i <= k < |ring| ==> !Survives(ring[k], group, removed)
    decreases |ring| - i
  {
    if i == |ring| then None
    else if Survives(ring[i], group, removed) then Some(i)
    else FirstFrom(ring, i + 1, group, removed)
  }

  function LastBefore(ring: Ring, i: nat, group: Option<string>, removed: seq<nat>): (r: Option<nat>)
    requires i <= |ring|
    ensures r.Some? ==> r.value < i && Survives(ring[r.value], group, removed)
    ensures r.Some? ==> forall k :: r.value < k < i ==> !Survives(ring[k], group, removed)
    ensures r.None? ==> forall k :: 0 <= k < i ==> !Survives(ring[k], group, removed)
  {
    if i == 0 then None
    else if Survives(ring[i - 1], group, removed) then Some(i - 1)
    else LastBefore(ring, i - 1, group, removed)
  }

  /** Successor first, then predecessor, around the span first..last. */
  function Search(ring: Ring, first: nat, last: nat, group: Option<string>, removed: seq<nat>): (r: Option<nat>)
    requires first <= last < |ring|
    ensures r.Some? ==> r.value < |ring|
  {
    match FirstFrom(ring, last + 1, group, removed)
    case Some(k) => Some(k)
    case None => LastBefore(ring, first, group, removed)
  }

  /** The slot of the ring a removal lands on. */
  function Landing(ring: Ring, removed: seq<nat>, prefer: Option<string>): (r: Option<nat>)
    ensures r.Some? ==> r.value < |ring|
  {
    var positions := Positions(ring, removed);
    if positions == [] then None
    else
      var first, last := Least(positions), Greatest(positions);
      assert last in positions && first <= last;
      var preferred := if prefer.Some? then Search(ring, first, last, prefer, removed) else None;
      if preferred.Some? then preferred else Search(ring, first, last, None, removed)
  }

  function RingLanding(ring: Ring, removed: seq<nat>, prefer: Option<string>): Option<(Workspace, nat)> {
    match Landing(ring, removed, prefer)
    case None => None
    case Some(k) => Some((ring[k].workspace, ring[k].id))
  }

  // ---- What the landing is ----

  ghost predicate Outside(k: nat, first: nat, last: nat) {
    k < first || last < k
  }

  /** How good a landing slot is: successors by distance, then predecessors by
      distance; smaller is better. */
  function Rank(ring: Ring, first: nat, last: nat, k: nat): int
    requires k < |ring|
  {
    if last < k then k - last else |ring| + first - k
  }

  /** The search answers the best candidate outside the span, if there is one. */
  lemma SearchIsNearest(ring: Ring, first: nat, last: nat, group: Option<string>, removed: seq<nat>)
    requires first <= last < |ring|
    ensures var r := Search(ring, first, last, group, removed);
            && (r.None? <==> forall k: nat :: k < |ring| && Outside(k, first, last) ==> !Survives(ring[k], group, removed))
            && (r.Some? ==>
                 && Outside(r.value, first, last) && Survives(ring[r.value], group, removed)
                 && forall k: nat :: k < |ring| && Outside(k, first, last) && Survives(ring[k], group, removed) ==>
                      Rank(ring, first, last, r.value) <= Rank(ring, first, last, k))
  {
    match FirstFrom(ring, last + 1, group, removed)
    case Some(k) =>
      assert Outside(k, first, last);
    case None =>
      match LastBefore(ring, first, group, removed)
      case Some(k) => assert Outside(k, first, last);
      case None =>
  }

  /** The removed entries' first and last slots. */
  ghost predicate Span(ring: Ring, removed: seq<nat>, first: nat, last: nat) {
    var positions := Positions(ring, removed);
    positions != [] && first == Least(positions) && last == Greatest(positions)
  }

  lemma SpanIsInRing(ring: Ring, removed: seq<nat>, first: nat, last: nat)
    requires Span(ring, removed, first, last)
    ensures first <= last < |ring| && ring[first].id in removed && ring[last].id in removed
  {
    assert last in Positions(ring, removed);
  }

  lemma {:induction false} PositionsEmpty(ring: Ring, removed: seq<nat>)
    ensures Positions(ring, removed) == [] <==> forall k :: 0 <= k < |ring| ==> ring[k].id !in removed
  {
    if removed != [] {
      PositionsEmpty(ring, removed[1..]);
      assert removed == [removed[0]] + removed[1..];
      if RingPosition(ring, removed[0]).None? {
        assert forall k :: 0 <= k < |ring| ==> (ring[k].id in removed <==> ring[k].id in removed[1..]);
      } else {
        var p := RingPosition(ring, removed[0]).value;
        assert ring[p].id in removed;
      }
    }
  }

  /** Under `ring_project` the landing is the best survivor of the project that
      lies outside the span; when there is none, and under `ring_global`, it is
      the best survivor of the whole ring. */
  lemma LandingIsNearest(ring: Ring, removed: seq<nat>, prefer: Option<string>, first: nat, last: nat)
    requires Span(ring, removed, first, last)
    ensures first <= last < |ring|
    ensures var own := exists k: nat :: k < |ring| && Outside(k, first, last) && Survives(ring[k], prefer, removed);
            Landing(ring, removed, prefer) == Search(ring, first, last, if own then prefer else None, removed)
  {
    SpanIsInRing(ring, removed, first, last);
    SearchIsNearest(ring, first, last, prefer, removed);
  }

  /** Nothing to land on: exactly when no removed id is in the ring, or nothing
      outside the removed span survives. */
  lemma NoLandingExactlyWhen(ring: Ring, removed: seq<nat>, prefer: Option<string>)
    ensures Landing(ring, removed, prefer).None? <==>
              || (forall k :: 0 <= k < |ring| ==> ring[k].id !in removed)
              || (exists first: nat, last: nat :: Span(ring, removed, first, last)
                    && forall k: nat :: k < |ring| && Outside(k, first, last) ==> ring[k].id in removed)
  {
    PositionsEmpty(ring, removed);
    var positions := Positions(ring, removed);
    if positions != [] {
      var first, last := Least(positions), Greatest(positions);
      assert Span(ring, removed, first, last);
      SpanIsInRing(ring, removed, first, last);
      SearchIsNearest(ring, first, last, prefer, removed);
      SearchIsNearest(ring, first, last, None, removed);
    }
  }

  /** When the removed entries are contiguous, only an empty house has none. */
  lemma ContiguousRemovalLands(ring: Ring, removed: seq<nat>, prefer: Option<string>, first: nat, last: nat)
    requires Span(ring, removed, first, last)
    requires forall k :: first <= k <= last && k < |ring| ==> ring[k].id in removed
    ensures Landing(ring, removed, prefer).None? <==> forall k :: 0 <= k < |ring| ==> ring[k].id in removed
  {
    NoLandingExactlyWhen(ring, removed, prefer);
    SpanIsInRing(ring, removed, first, last);
    if forall k: nat :: k < |ring| && Outside(k, first, last) ==> ring[k].id in removed {
      forall k | 0 <= k < |ring|
        ensures ring[k].id in removed
      {
        assert Outside(k, first, last) || first <= k <= last;
      }
    }
  }

  /** A landing is never a removed session. */
  lemma LandingSurvives(ring: Ring, removed: seq<nat>, prefer: Option<string>)
    requires Landing(ring, removed, prefer).Some?
    ensures ring[Landing(ring, removed, prefer).value].id !in removed
  {
    var positions := Positions(ring, removed);
    var first, last := Least(positions), Greatest(positions);
    assert Span(ring, removed, first, last);
    SpanIsInRing(ring, removed, first, last);
    SearchIsNearest(ring, first, last, prefer, removed);
    SearchIsNearest(ring, first, last, None, removed);
  }
}
