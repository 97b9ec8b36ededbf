/** Moving one element of a sequence by neighbour swaps across chosen slots. */
module Walks {
  import opened Seqs

  type Slots = seq<nat>

  ghost predicate Within(indices: Slots, n: nat) {
    forall k :: 0 <= k < |indices| ==> indices[k] < n
  }

  ghost predicate SlotsOf<T>(indices: Slots, s: seq<T>) {
    Distinct(indices) && Within(indices, |s|)
  }

  /** Take the element at `from` out and put it back at slot `to`. */
  function Move<T>(s: seq<T>, from: nat, to: nat): seq<T>
    requires from < |s| && to < |s|
  {
    InsertAt(RemoveAt(s, from), to, s[from])
  }

  function Swap<T>(s: seq<T>, a: nat, b: nat): (r: seq<T>)
    requires a < |s| && b < |s|
    ensures |r| == |s|
  {
    s[a := s[b]][b := s[a]]
  }

  predicate InRange(swaps: seq<(nat, nat)>, n: nat) {
    forall p :: p in swaps ==> p.0 < n && p.1 < n
  }

  function ApplySwaps<T>(s: seq<T>, swaps: seq<(nat, nat)>): (r: seq<T>)
    requires InRange(swaps, |s|)
    ensures |r| == |s|
    decreases |swaps|
  {
    if swaps == [] then s else ApplySwaps(Swap(s, swaps[0].0, swaps[0].1), swaps[1..])
  }

  /** The neighbour swaps that carry slot `j` to slot `position`. */
  function Swaps(indices: Slots, j: nat, position: nat): seq<(nat, nat)>
    requires j < |indices| && position < |indices|
    decreases if j > position then j - position else position - j
  {
    if j > position then [(indices[j - 1], indices[j])] + Swaps(indices, j - 1, position)
    else if j < position then [(indices[j], indices[j + 1])] + Swaps(indices, j + 1, position)
    else []
  }

  /** What walk_swaps answers, out-of-range requests included. */
  function WalkOf(indices: Slots, j: nat, position: nat): seq<(nat, nat)> {
    if j >= |indices| then []
    else Swaps(indices, j, if position < |indices| then position else |indices| - 1)
  }

  method WalkSwaps(indices: Slots, j: nat, position: nat) returns (swaps: seq<(nat, nat)>)
    ensures swaps == WalkOf(indices, j, position)
  {
    swaps := [];
    if indices == [] || j >= |indices| {
      return;
    }
    var target: nat := if position < |indices| then position else |indices| - 1;
    var at: nat := j;
    while at > target
      invariant at < |indices|
      invariant swaps + Swaps(indices, at, target) == Swaps(indices, j, target)
    {
      Associate(swaps, [(indices[at - 1], indices[at])], Swaps(indices, at - 1, target));
      swaps := swaps + [(indices[at - 1], indices[at])];
      at := at - 1;
    }
    while at < target
      invariant at <= target
      invariant swaps + Swaps(indices, at, target) == Swaps(indices, j, target)
    {
      Associate(swaps, [(indices[at], indices[at + 1])], Swaps(indices, at + 1, target));
      swaps := swaps + [(indices[at], indices[at + 1])];
      at := at + 1;
    }
  }

  /** The elements in the given slots, in slot order. */
  ghost function Gather<T>(s: seq<T>, indices: Slots): (r: seq<T>)
    requires Within(indices, |s|)
  {
    seq(|indices|, k requires 0 <= k < |indices| => s[indices[k]])
  }

  /** Swapping two neighbouring slots swaps neighbours in the gathered list. */
  lemma GatherSwap<T>(s: seq<T>, indices: Slots, k: nat)
    requires SlotsOf(indices, s) && k + 1 < |indices|
    ensures Gather(Swap(s, indices[k], indices[k + 1]), indices) == Swap(Gather(s, indices), k, k + 1)
  {}

  lemma MoveDown<T>(g: seq<T>, j: nat, position: nat)
    requires position < j < |g|
    ensures Move(g, j, position) == Move(Swap(g, j - 1, j), j - 1, position)
  {
    var h := Swap(g, j - 1, j);
    assert RemoveAt(g, j) == RemoveAt(h, j - 1);
  }

  lemma MoveUp<T>(g: seq<T>, j: nat, position: nat)
    requires j < position < |g|
    ensures Move(g, j, position) == Move(Swap(g, j, j + 1), j + 1, position)
  {
    var h := Swap(g, j, j + 1);
    assert RemoveAt(g, j) == RemoveAt(h, j + 1);
  }

  lemma SwapPermutes<T>(s: seq<T>, a: nat, b: nat)
    requires a < |s| && b < |s|
    ensures multiset(Swap(s, a, b)) == multiset(s)
  {}

  lemma {:induction false} SwapsPermute<T>(s: seq<T>, swaps: seq<(nat, nat)>)
    requires InRange(swaps, |s|)
    ensures multiset(ApplySwaps(s, swaps)) == multiset(s)
    decreases |swaps|
  {
    if swaps != [] {
      SwapPermutes(s, swaps[0].0, swaps[0].1);
      SwapsPermute(Swap(s, swaps[0].0, swaps[0].1), swaps[1..]);
    }
  }

  lemma WalkStep<T>(s: seq<T>, a: nat, b: nat, swaps: seq<(nat, nat)>)
    requires a < |s| && b < |s| && InRange(swaps, |s|)
    ensures InRange([(a, b)] + swaps, |s|)
    ensures ApplySwaps(s, [(a, b)] + swaps) == ApplySwaps(Swap(s, a, b), swaps)
  {
    assert ([(a, b)] + swaps)[1..] == swaps;
  }

  /** What a walk does to the gathered list and to everything else. */
  ghost predicate Carries<T>(s: seq<T>, t: seq<T>, indices: Slots, j: nat, position: nat)
    requires SlotsOf(indices, s) && j < |indices| && position < |indices| && |t| == |s|
  {
    && Gather(t, indices) == Move(Gather(s, indices), j, position)
    && forall i :: 0 <= i < |s| && i !in indices ==> t[i] == s[i]
  }

  lemma {:induction false} WalkDown<T>(s: seq<T>, indices: Slots, j: nat, position: nat)
    requires SlotsOf(indices, s) && position <= j < |indices|
    ensures InRange(Swaps(indices, j, position), |s|)
    ensures Carries(s, ApplySwaps(s, Swaps(indices, j, position)), indices, j, position)
    decreases j
  {
    if j > position {
      GatherSwap(s, indices, j - 1);
      MoveDown(Gather(s, indices), j, position);
      WalkDown(Swap(s, indices[j - 1], indices[j]), indices, j - 1, position);
      WalkStep(s, indices[j - 1], indices[j], Swaps(indices, j - 1, position));
    } else {
      assert Move(Gather(s, indices), j, j) == Gather(s, indices);
    }
  }

  lemma {:induction false} WalkUp<T>(s: seq<T>, indices: Slots, j: nat, position: nat)
    requires SlotsOf(indices, s) && j <= position < |indices|
    ensures InRange(Swaps(indices, j, position), |s|)
    ensures Carries(s, ApplySwaps(s, Swaps(indices, j, position)), indices, j, position)
    decreases position - j
  {
    if j < position {
      GatherSwap(s, indices, j);
      MoveUp(Gather(s, indices), j, position);
      WalkUp(Swap(s, indices[j], indices[j + 1]), indices, j + 1, position);
      WalkStep(s, indices[j], indices[j + 1], Swaps(indices, j + 1, position));
    } else {
      assert Move(Gather(s, indices), j, j) == Gather(s, indices);
    }
  }

  /** Applying the walk takes the element at slot `j` of the gathered list out and
      puts it back at slot `position`, leaves every other slot of the sequence
      alone, and permutes the whole. */
  lemma WalkMoves<T>(s: seq<T>, indices: Slots, j: nat, position: nat)
    requires SlotsOf(indices, s) && j < |indices| && position < |indices|
    ensures InRange(Swaps(indices, j, position), |s|)
    ensures Carries(s, ApplySwaps(s, Swaps(indices, j, position)), indices, j, position)
    ensures multiset(ApplySwaps(s, Swaps(indices, j, position))) == multiset(s)
  {
    if j >= position {
      WalkDown(s, indices, j, position);
    } else {
      WalkUp(s, indices, j, position);
    }
    SwapsPermute(s, Swaps(indices, j, position));
  }
}
