/** A path that two projects list stands in the ring twice, as two whole blocks.
    When the second block changes where a removal lands. */
module RingRepeats {
  import opened AppState
  import opened CloseLandings
  import opened CloseSessions
  import opened DisplayOrder
  import opened Options
  import opened Seqs
  import opened SessionRing
  import opened Sessions
  import opened StableSort

  // ---- Leaving a block out ----

  /** The ring without its slots j to j + n. */
  function Without(ring: Ring, j: nat, n: nat): (short: Ring)
    requires j + n <= |ring|
    ensures |short| == |ring| - n
    ensures forall k :: 0 <= k < j ==> short[k] == ring[k]
    ensures forall k :: j <= k < |short| ==> short[k] == ring[k + n]
  {
    ring[..j] + ring[j + n..]
  }

  /** Where a slot outside the block goes. */
  function Closer(k: nat, j: nat, n: nat): nat {
    if k >= j + n then k - n else k
  }

  function CloserFound(r: Option<nat>, j: nat, n: nat): Option<nat> {
    if r.None? then None else Some(Closer(r.value, j, n))
  }

  predicate InBlock(k: nat, j: nat, n: nat) {
    j <= k < j + n
  }

  /** The block at j is the one at i over again, and its ids stand nowhere else. */
  ghost predicate ListedTwice(ring: Ring, i: nat, j: nat, n: nat) {
    && i + n <= j && j + n <= |ring|
    && (forall k :: j <= k < j + n ==> ring[k] == ring[k - j + i])
    && (forall k, l :: j <= k < j + n && 0 <= l < |ring| && ring[l].id == ring[k].id ==> l == k || l == k - j + i)
  }

  lemma RingPositionIs(ring: Ring, id: nat, r: Option<nat>)
    requires r.Some? ==> r.value < |ring| && ring[r.value].id == id
    requires forall k :: 0 <= k < |ring| && (r.Some? ==> k < r.value) ==> ring[k].id != id
    ensures RingPosition(ring, id) == r
  {
  }

  lemma FirstListingOnly(ring: Ring, i: nat, j: nat, n: nat, p: nat, id: nat)
    requires ListedTwice(ring, i, j, n) && p < |ring| && ring[p].id == id
    requires forall k :: 0 <= k < p ==> ring[k].id != id
    ensures !InBlock(p, j, n)
  {
    var k := if InBlock(p, j, n) then p - j + i else p;
    assert ring[k].id == id;
  }

  lemma PositionWithout(ring: Ring, i: nat, j: nat, n: nat, id: nat)
    requires ListedTwice(ring, i, j, n)
    ensures var p := RingPosition(ring, id);
            RingPosition(Without(ring, j, n), id) == CloserFound(p, j, n)
            && (p.Some? ==> !InBlock(p.value, j, n))
  {
    var short, p := Without(ring, j, n), RingPosition(ring, id);
    if p.Some? {
      FirstListingOnly(ring, i, j, n, p.value, id);
      assert short[Closer(p.value, j, n)] == ring[p.value];
    }
    forall k | 0 <= k < |short| && (p.Some? ==> k < Closer(p.value, j, n))
      ensures short[k].id != id
    {
      assert short[k] == ring[if k < j then k else k + n];
    }
    RingPositionIs(short, id, CloserFound(p, j, n));
  }

  lemma {:induction false} PositionsWithout(ring: Ring, i: nat, j: nat, n: nat, removed: seq<nat>)
    requires ListedTwice(ring, i, j, n)
    ensures var ps, qs := Positions(ring, removed), Positions(Without(ring, j, n), removed);
            && |ps| == |qs|
            && forall k :: 0 <= k < |ps| ==> !InBlock(ps[k], j, n) && qs[k] == Closer(ps[k], j, n)
  {
    if removed != [] {
      PositionsWithout(ring, i, j, n, removed[1..]);
      PositionWithout(ring, i, j, n, removed[0]);
    }
  }

  lemma SpanWithout(ring: Ring, i: nat, j: nat, n: nat, removed: seq<nat>, first: nat, last: nat)
    requires ListedTwice(ring, i, j, n) && Span(ring, removed, first, last)
    ensures first <= last < |ring| && !InBlock(first, j, n) && !InBlock(last, j, n)
    ensures Span(Without(ring, j, n), removed, Closer(first, j, n), Closer(last, j, n))
  {
    SpanIsInRing(ring, removed, first, last);
    PositionsWithout(ring, i, j, n, removed);
    var ps, qs := Positions(ring, removed), Positions(Without(ring, j, n), removed);
    var a := IndexIn(ps, first);
    var b := IndexIn(ps, last);
    assert qs[a] == Closer(first, j, n) && qs[b] == Closer(last, j, n);
    forall q | q in qs
      ensures Closer(first, j, n) <= q <= Closer(last, j, n)
    {
      var k := IndexIn(qs, q);
      assert ps[k] in ps;
    }
    assert qs[a] in qs && qs[b] in qs;
  }

  // ---- Searching without the block ----

  /** Nothing of the group survives between two slots. */
  predicate NoneIn(ring: Ring, from: nat, to: nat, group: Option<string>, removed: seq<nat>) {
    forall k :: from <= k < to && k < |ring| ==> !Survives(ring[k], group, removed)
  }

  lemma FirstFromIs(ring: Ring, i: nat, group: Option<string>, removed: seq<nat>, r: Option<nat>)
    requires i <= |ring|
    requires r.Some? ==> i <= r.value < |ring| && Survives(ring[r.value], group, removed)
    requires NoneIn(ring, i, if r.Some? then r.value else |ring|, group, removed)
    ensures FirstFrom(ring, i, group, removed) == r
  {
  }

  lemma LastBeforeIs(ring: Ring, i: nat, group: Option<string>, removed: seq<nat>, r: Option<nat>)
    requires i <= |ring|
    requires r.Some? ==> r.value < i && Survives(ring[r.value], group, removed)
    requires NoneIn(ring, if r.Some? then r.value + 1 else 0, i, group, removed)
    ensures LastBefore(ring, i, group, removed) == r
  {
  }

  /** Nothing survives between two slots outside the block, the block aside. */
  predicate NoneBeside(ring: Ring, j: nat, n: nat, from: nat, to: nat, group: Option<string>, removed: seq<nat>) {
    && NoneIn(ring, from, if to <= j then to else j, group, removed)
    && NoneIn(ring, if from <= j then j + n else from, to, group, removed)
  }

  lemma NoneInWithout(ring: Ring, j: nat, n: nat, from: nat, to: nat, group: Option<string>, removed: seq<nat>)
    requires j + n <= |ring| && from <= to <= |ring| && (from <= j || j + n <= from) && (to <= j || j + n <= to)
    requires NoneBeside(ring, j, n, from, to, group, removed)
    ensures NoneIn(Without(ring, j, n), Closer(from, j, n), Closer(to, j, n), group, removed)
  {
    var short := Without(ring, j, n);
    forall k | Closer(from, j, n) <= k < Closer(to, j, n) && k < |short|
      ensures !Survives(short[k], group, removed)
    {
      assert short[k] == ring[if k < j then k else k + n];
    }
  }

  lemma SearchIs(ring: Ring, first: nat, last: nat, group: Option<string>, removed: seq<nat>, r: Option<nat>)
    requires first <= last < |ring|
    requires r.Some? ==> r.value < |ring| && Outside(r.value, first, last) && Survives(ring[r.value], group, removed)
    requires NoneIn(ring, last + 1, if r.Some? && last < r.value then r.value else |ring|, group, removed)
    requires r.None? || r.value < first ==> NoneIn(ring, if r.Some? then r.value + 1 else 0, first, group, removed)
    ensures Search(ring, first, last, group, removed) == r
  {
    if r.Some? && last < r.value {
      FirstFromIs(ring, last + 1, group, removed, r);
    } else {
      FirstFromIs(ring, last + 1, group, removed, None);
      LastBeforeIs(ring, first, group, removed, r);
    }
  }

  /** The search comes to the block: nothing of the group survives between the
      removed span and the block, behind which it looks when the block lies in
      front of the span. */
  predicate Reaches(ring: Ring, j: nat, n: nat, first: nat, last: nat, group: Option<string>, removed: seq<nat>) {
    && !NoneIn(ring, j, j + n, group, removed)
    && if last < j then NoneIn(ring, last + 1, j, group, removed)
       else j + n <= first && NoneIn(ring, last + 1, |ring|, group, removed) && NoneIn(ring, j + n, first, group, removed)
  }

  lemma ReachesExactlyWhen(ring: Ring, j: nat, n: nat, first: nat, last: nat, group: Option<string>, removed: seq<nat>)
    requires first <= last < |ring| && j + n <= |ring| && !InBlock(first, j, n) && !InBlock(last, j, n)
    ensures var r := Search(ring, first, last, group, removed);
            Reaches(ring, j, n, first, last, group, removed) <==> r.Some? && InBlock(r.value, j, n)
  {
  }

  /** What it comes to without the block. */
  function Past(ring: Ring, j: nat, n: nat, first: nat, last: nat, group: Option<string>, removed: seq<nat>): Option<nat>
    requires first <= last < |ring| && j + n <= |ring|
  {
    if j + n <= first then LastBefore(ring, j, group, removed)
    else
      var behind := FirstFrom(ring, j + n, group, removed);
      if behind.Some? then behind else LastBefore(ring, first, group, removed)
  }

  /** The nearest survivor outside the span and the block. */
  ghost predicate FoundBeside(ring: Ring, j: nat, n: nat, first: nat, last: nat, group: Option<string>, removed: seq<nat>, r: Option<nat>) {
    && (r.Some? ==> r.value < |ring| && Outside(r.value, first, last) && !InBlock(r.value, j, n)
                    && Survives(ring[r.value], group, removed))
    && NoneBeside(ring, j, n, last + 1, if r.Some? && last < r.value then r.value else |ring|, group, removed)
    && (r.None? || r.value < first ==>
          NoneBeside(ring, j, n, if r.Some? then r.value + 1 else 0, first, group, removed))
  }

  lemma SearchBeside(ring: Ring, j: nat, n: nat, first: nat, last: nat, group: Option<string>, removed: seq<nat>)
    requires first <= last < |ring| && j + n <= |ring| && !InBlock(first, j, n) && !InBlock(last, j, n)
    ensures var r := Search(ring, first, last, group, removed);
            FoundBeside(ring, j, n, first, last, group, removed,
                        if r.Some? && InBlock(r.value, j, n) then Past(ring, j, n, first, last, group, removed) else r)
  {
  }

  lemma SearchWithout(ring: Ring, j: nat, n: nat, first: nat, last: nat, group: Option<string>, removed: seq<nat>, past: Option<nat>)
    requires first <= last < |ring| && j + n <= |ring| && !InBlock(first, j, n) && !InBlock(last, j, n)
    requires FoundBeside(ring, j, n, first, last, group, removed, past)
    ensures Closer(first, j, n) <= Closer(last, j, n) < |ring| - n
    ensures Search(Without(ring, j, n), Closer(first, j, n), Closer(last, j, n), group, removed) == CloserFound(past, j, n)
  {
    if past.Some? && last < past.value {
      SuccessorWithout(ring, j, n, first, last, group, removed, past.value);
    } else if past.Some? {
      PredecessorWithout(ring, j, n, first, last, group, removed, past.value);
    } else {
      NoneInWithout(ring, j, n, last + 1, |ring|, group, removed);
      NoneInWithout(ring, j, n, 0, first, group, removed);
      SearchIs(Without(ring, j, n), Closer(first, j, n), Closer(last, j, n), group, removed, None);
    }
  }

  lemma SuccessorWithout(ring: Ring, j: nat, n: nat, first: nat, last: nat, group: Option<string>, removed: seq<nat>, k: nat)
    requires first <= last < k < |ring| && j + n <= |ring|
    requires !InBlock(first, j, n) && !InBlock(last, j, n) && !InBlock(k, j, n)
    requires Survives(ring[k], group, removed) && NoneBeside(ring, j, n, last + 1, k, group, removed)
    ensures Closer(first, j, n) <= Closer(last, j, n) < Closer(k, j, n) < |ring| - n
    ensures Search(Without(ring, j, n), Closer(first, j, n), Closer(last, j, n), group, removed) == Some(Closer(k, j, n))
  {
    assert Without(ring, j, n)[Closer(k, j, n)] == ring[k];
    NoneInWithout(ring, j, n, last + 1, k, group, removed);
    SearchIs(Without(ring, j, n), Closer(first, j, n), Closer(last, j, n), group, removed, Some(Closer(k, j, n)));
  }

  lemma PredecessorWithout(ring: Ring, j: nat, n: nat, first: nat, last: nat, group: Option<string>, removed: seq<nat>, k: nat)
    requires k < first <= last < |ring| && j + n <= |ring|
    requires !InBlock(first, j, n) && !InBlock(last, j, n) && !InBlock(k, j, n)
    requires Survives(ring[k], group, removed) && NoneBeside(ring, j, n, k + 1, first, group, removed)
    requires NoneBeside(ring, j, n, last + 1, |ring|, group, removed)
    ensures Closer(k, j, n) < Closer(first, j, n) <= Closer(last, j, n) < |ring| - n
    ensures Search(Without(ring, j, n), Closer(first, j, n), Closer(last, j, n), group, removed) == Some(Closer(k, j, n))
  {
    assert Without(ring, j, n)[Closer(k, j, n)] == ring[k];
    NoneInWithout(ring, j, n, k + 1, first, group, removed);
    NoneInWithout(ring, j, n, last + 1, |ring|, group, removed);
    SearchIs(Without(ring, j, n), Closer(first, j, n), Closer(last, j, n), group, removed, Some(Closer(k, j, n)));
  }

  // ---- The group that decides ----

  predicate NoneOutside(ring: Ring, first: nat, last: nat, group: Option<string>, removed: seq<nat>) {
    NoneIn(ring, 0, first, group, removed) && NoneIn(ring, last + 1, |ring|, group, removed)
  }

  /** The project, while any of its own survives outside the span. */
  function Deciding(ring: Ring, first: nat, last: nat, prefer: Option<string>, removed: seq<nat>): Option<string> {
    if prefer.Some? && !NoneOutside(ring, first, last, prefer, removed) then prefer else None
  }

  lemma SearchFails(ring: Ring, first: nat, last: nat, group: Option<string>, removed: seq<nat>)
    requires first <= last < |ring|
    ensures Search(ring, first, last, group, removed).None? <==> NoneOutside(ring, first, last, group, removed)
  {
    if FirstFrom(ring, last + 1, group, removed).None? && LastBefore(ring, first, group, removed).None? {
      assert NoneOutside(ring, first, last, group, removed);
    }
  }

  lemma LandingIsDecided(ring: Ring, removed: seq<nat>, prefer: Option<string>, first: nat, last: nat)
    requires Span(ring, removed, first, last)
    ensures first <= last < |ring|
    ensures Landing(ring, removed, prefer)
         == Search(ring, first, last, Deciding(ring, first, last, prefer, removed), removed)
  {
    SpanIsInRing(ring, removed, first, last);
    SearchFails(ring, first, last, prefer, removed);
  }

  // ---- When the answer stays ----

  /** The one survivor from slot i to the span. */
  predicate Alone(ring: Ring, i: nat, s: nat, first: nat, group: Option<string>, removed: seq<nat>) {
    && s < first && s < |ring| && Survives(ring[s], group, removed)
    && NoneIn(ring, i, s, group, removed) && NoneIn(ring, s + 1, first, group, removed)
  }

  /** The search gets back to the same session at the first listing: nothing
      survives behind the block, and the first survivor of the first listing is
      the only one from there to the span; or, for a block in front of the span,
      nothing survives between the listings. */
  ghost predicate Returns(ring: Ring, i: nat, j: nat, n: nat, first: nat, last: nat, group: Option<string>, removed: seq<nat>) {
    if last < j then
      && NoneIn(ring, j + n, |ring|, group, removed)
      && exists s :: i <= s < i + n && Alone(ring, i, s, first, group, removed)
    else NoneIn(ring, i + n, j, group, removed)
  }

  /** Both listings survive alike. */
  lemma ListingsAgree(ring: Ring, i: nat, j: nat, n: nat, a: nat, b: nat, group: Option<string>, removed: seq<nat>)
    requires ListedTwice(ring, i, j, n) && j <= a <= b <= j + n
    ensures NoneIn(ring, a, b, group, removed) <==> NoneIn(ring, a - j + i, b - j + i, group, removed)
  {
    if NoneIn(ring, a, b, group, removed) {
      forall k | a - j + i <= k < b - j + i && k < |ring|
        ensures !Survives(ring[k], group, removed)
      {
        assert ring[k - i + j] == ring[k];
      }
    }
    if NoneIn(ring, a - j + i, b - j + i, group, removed) {
      forall k | a <= k < b && k < |ring|
        ensures !Survives(ring[k], group, removed)
      {
        assert ring[k] == ring[k - j + i];
      }
    }
  }

  lemma ReturnsFromAhead(ring: Ring, i: nat, j: nat, n: nat, first: nat, last: nat, l: nat,
                         group: Option<string>, removed: seq<nat>)
    requires ListedTwice(ring, i, j, n) && first <= last < j
    requires FirstFrom(ring, last + 1, group, removed) == Some(l) && InBlock(l, j, n)
    ensures Returns(ring, i, j, n, first, last, group, removed)
       <==> Past(ring, j, n, first, last, group, removed) == Some(l - j + i)
  {
    var at := l - j + i;
    assert NoneIn(ring, j, l, group, removed) && Survives(ring[at], group, removed);
    ListingsAgree(ring, i, j, n, j, l, group, removed);
    if Returns(ring, i, j, n, first, last, group, removed) {
      var s :| i <= s < i + n && Alone(ring, i, s, first, group, removed);
      FirstFromIs(ring, j + n, group, removed, None);
      LastBeforeIs(ring, first, group, removed, Some(s));
    }
    if Past(ring, j, n, first, last, group, removed) == Some(at) {
      PastIsAlone(ring, i, j, n, first, last, at, group, removed);
    }
  }

  lemma PastIsAlone(ring: Ring, i: nat, j: nat, n: nat, first: nat, last: nat, at: nat,
                    group: Option<string>, removed: seq<nat>)
    requires i + n <= j && j + n <= |ring| && first <= last < j && i <= at < i + n
    requires NoneIn(ring, i, at, group, removed)
    requires Past(ring, j, n, first, last, group, removed) == Some(at)
    ensures NoneIn(ring, j + n, |ring|, group, removed) && Alone(ring, i, at, first, group, removed)
  {
    assert FirstFrom(ring, j + n, group, removed).None?;
  }

  lemma ReturnsFromBehind(ring: Ring, i: nat, j: nat, n: nat, first: nat, last: nat, l: nat,
                          group: Option<string>, removed: seq<nat>)
    requires ListedTwice(ring, i, j, n) && j + n <= first <= last < |ring|
    requires LastBefore(ring, first, group, removed) == Some(l) && InBlock(l, j, n)
    ensures Returns(ring, i, j, n, first, last, group, removed)
       <==> Past(ring, j, n, first, last, group, removed) == Some(l - j + i)
  {
    var at := l - j + i;
    assert NoneIn(ring, l + 1, j + n, group, removed) && Survives(ring[at], group, removed);
    ListingsAgree(ring, i, j, n, l + 1, j + n, group, removed);
    if NoneIn(ring, i + n, j, group, removed) {
      LastBeforeIs(ring, j, group, removed, Some(at));
    }
    if LastBefore(ring, j, group, removed) == Some(at) {
      assert NoneIn(ring, i + n, j, group, removed);
    }
  }

  /** With nothing to come to, the first listing lies inside the span. */
  lemma HiddenInTheSpan(ring: Ring, i: nat, j: nat, n: nat, first: nat, last: nat, l: nat,
                        group: Option<string>, removed: seq<nat>)
    requires ListedTwice(ring, i, j, n) && first <= last < |ring| && !InBlock(first, j, n) && !InBlock(last, j, n)
    requires Search(ring, first, last, group, removed) == Some(l) && InBlock(l, j, n)
    requires Past(ring, j, n, first, last, group, removed).None?
    ensures first <= l - j + i <= last
  {
    assert Survives(ring[l - j + i], group, removed);
  }

  // ---- The landing without the block ----

  lemma LandingIs(ring: Ring, removed: seq<nat>, prefer: Option<string>, first: nat, last: nat)
    requires Span(ring, removed, first, last)
    ensures first <= last < |ring|
    ensures Landing(ring, removed, prefer)
         == (if prefer.Some? && Search(ring, first, last, prefer, removed).Some?
             then Search(ring, first, last, prefer, removed)
             else Search(ring, first, last, None, removed))
  {
    SpanIsInRing(ring, removed, first, last);
  }

  /** The search of one group, with its block passed over where it was reached. */
  function Sought(ring: Ring, j: nat, n: nat, first: nat, last: nat, group: Option<string>, removed: seq<nat>): Option<nat>
    requires first <= last < |ring| && j + n <= |ring|
  {
    var r := Search(ring, first, last, group, removed);
    if r.Some? && InBlock(r.value, j, n) then Past(ring, j, n, first, last, group, removed) else r
  }

  lemma LandingWithout(ring: Ring, i: nat, j: nat, n: nat, removed: seq<nat>, prefer: Option<string>, first: nat, last: nat)
    requires ListedTwice(ring, i, j, n) && Span(ring, removed, first, last)
    ensures first <= last < |ring|
    ensures var group := Deciding(ring, first, last, prefer, removed);
            var sought := Sought(ring, j, n, first, last, group, removed);
            Landing(Without(ring, j, n), removed, prefer)
            == (if sought.None? && group.Some? then CloserFound(Sought(ring, j, n, first, last, None, removed), j, n)
                else CloserFound(sought, j, n))
  {
    SpanWithout(ring, i, j, n, removed, first, last);
    LandingIs(Without(ring, j, n), removed, prefer, Closer(first, j, n), Closer(last, j, n));
    SearchBeside(ring, j, n, first, last, None, removed);
    SearchWithout(ring, j, n, first, last, None, removed, Sought(ring, j, n, first, last, None, removed));
    if prefer.Some? {
      SearchFails(ring, first, last, prefer, removed);
      SearchBeside(ring, j, n, first, last, prefer, removed);
      SearchWithout(ring, j, n, first, last, prefer, removed, Sought(ring, j, n, first, last, prefer, removed));
    }
  }

  /** Where a search goes lies outside the span and, once passed over, the block. */
  lemma SoughtIsBeside(ring: Ring, j: nat, n: nat, first: nat, last: nat, group: Option<string>, removed: seq<nat>)
    requires first <= last < |ring| && j + n <= |ring| && !InBlock(first, j, n) && !InBlock(last, j, n)
    ensures var r := Sought(ring, j, n, first, last, group, removed);
            r.Some? ==> r.value < |ring| && Outside(r.value, first, last) && !InBlock(r.value, j, n)
  {
    SearchBeside(ring, j, n, first, last, group, removed);
  }

  lemma ReturnsExactlyWhen(ring: Ring, i: nat, j: nat, n: nat, first: nat, last: nat, l: nat,
                           group: Option<string>, removed: seq<nat>)
    requires ListedTwice(ring, i, j, n) && first <= last < |ring| && !InBlock(first, j, n) && !InBlock(last, j, n)
    requires Search(ring, first, last, group, removed) == Some(l) && InBlock(l, j, n)
    ensures Returns(ring, i, j, n, first, last, group, removed)
       <==> Past(ring, j, n, first, last, group, removed) == Some(l - j + i)
  {
    if last < j {
      ReturnsFromAhead(ring, i, j, n, first, last, l, group, removed);
    } else {
      ReturnsFromBehind(ring, i, j, n, first, last, l, group, removed);
    }
  }

  /** The session at a slot, by its entry. */
  function EntryAt(ring: Ring, r: Option<nat>): Option<(Workspace, nat)>
    requires r.Some? ==> r.value < |ring|
  {
    if r.None? then None else Some((ring[r.value].workspace, ring[r.value].id))
  }

  lemma SameEntryWithout(ring: Ring, j: nat, n: nat, r: Option<nat>)
    requires j + n <= |ring| && (r.Some? ==> r.value < |ring| && !InBlock(r.value, j, n))
    ensures CloserFound(r, j, n).Some? ==> CloserFound(r, j, n).value < |ring| - n
    ensures EntryAt(Without(ring, j, n), CloserFound(r, j, n)) == EntryAt(ring, r)
  {
  }

  lemma SameSessionExactlyWhen(ring: Ring, i: nat, j: nat, n: nat, l: nat, r: Option<nat>)
    requires ListedTwice(ring, i, j, n) && InBlock(l, j, n)
    requires r.Some? ==> r.value < |ring| && !InBlock(r.value, j, n)
    ensures EntryAt(ring, r) == EntryAt(ring, Some(l)) <==> r == Some(l - j + i)
  {
    assert ring[l] == ring[l - j + i];
  }

  /** Leaving the second listing out keeps the answer of every removal exactly
      when the search does not come to it, or gets back to the same session. */
  lemma BlockMattersExactlyWhen(ring: Ring, i: nat, j: nat, n: nat, removed: seq<nat>, prefer: Option<string>,
                                first: nat, last: nat)
    requires ListedTwice(ring, i, j, n) && Span(ring, removed, first, last)
    ensures first <= last < |ring|
    ensures var group := Deciding(ring, first, last, prefer, removed);
            RingLanding(Without(ring, j, n), removed, prefer) == RingLanding(ring, removed, prefer)
            <==> (Reaches(ring, j, n, first, last, group, removed) ==>
                    Returns(ring, i, j, n, first, last, group, removed))
  {
    SpanWithout(ring, i, j, n, removed, first, last);
    var group := Deciding(ring, first, last, prefer, removed);
    var r, sought := Search(ring, first, last, group, removed), Sought(ring, j, n, first, last, group, removed);
    var all := Sought(ring, j, n, first, last, None, removed);
    LandingIsDecided(ring, removed, prefer, first, last);
    LandingWithout(ring, i, j, n, removed, prefer, first, last);
    SoughtIsBeside(ring, j, n, first, last, group, removed);
    SoughtIsBeside(ring, j, n, first, last, None, removed);
    ReachesExactlyWhen(ring, j, n, first, last, group, removed);
    SameEntryWithout(ring, j, n, sought);
    SameEntryWithout(ring, j, n, all);
    if r.Some? && InBlock(r.value, j, n) {
      ReachedBlockMatters(ring, i, j, n, first, last, r.value, group, removed);
    } else {
      SearchFails(ring, first, last, group, removed);
    }
  }

  lemma ReachedBlockMatters(ring: Ring, i: nat, j: nat, n: nat, first: nat, last: nat, l: nat,
                            group: Option<string>, removed: seq<nat>)
    requires ListedTwice(ring, i, j, n) && first <= last < |ring| && !InBlock(first, j, n) && !InBlock(last, j, n)
    requires Search(ring, first, last, group, removed) == Some(l) && InBlock(l, j, n)
    ensures var sought, all := Sought(ring, j, n, first, last, group, removed), Sought(ring, j, n, first, last, None, removed);
            && (sought.Some? ==> sought.value < |ring|) && (all.Some? ==> all.value < |ring|)
            && (Returns(ring, i, j, n, first, last, group, removed) <==> EntryAt(ring, sought) == EntryAt(ring, Some(l)))
            && (Returns(ring, i, j, n, first, last, group, removed) ==> sought.Some?)
            && (sought.None? ==> EntryAt(ring, all) != EntryAt(ring, Some(l)))
  {
    SoughtIsBeside(ring, j, n, first, last, group, removed);
    SoughtIsBeside(ring, j, n, first, last, None, removed);
    var sought, all := Sought(ring, j, n, first, last, group, removed), Sought(ring, j, n, first, last, None, removed);
    ReturnsExactlyWhen(ring, i, j, n, first, last, l, group, removed);
    SameSessionExactlyWhen(ring, i, j, n, l, sought);
    SameSessionExactlyWhen(ring, i, j, n, l, all);
    if sought.None? {
      HiddenInTheSpan(ring, i, j, n, first, last, l, group, removed);
    }
  }

  // ---- Workspaces listed twice ----

  type Order = seq<(Workspace, Option<string>)>

  ghost predicate Lists(order: Order, ws: Workspace) {
    exists k :: 0 <= k < |order| && order[k].0 == ws
  }

  lemma {:induction false} RingOfConcat(sessions: seq<Session>, ranks: Ranks, a: Order, b: Order)
    ensures RingOf(sessions, ranks, a + b) == RingOf(sessions, ranks, a) + RingOf(sessions, ranks, b)
  {
    if a == [] {
      assert a + b == b;
    } else {
      assert (a + b)[0] == a[0] && (a + b)[1..] == a[1..] + b;
      RingOfConcat(sessions, ranks, a[1..], b);
    }
  }

  /** An entry stands under a workspace of the order, and its session is there. */
  lemma {:induction false} EntriesAreListed(sessions: seq<Session>, ranks: Ranks, order: Order)
    ensures forall k :: 0 <= k < |RingOf(sessions, ranks, order)| ==>
              Lists(order, RingOf(sessions, ranks, order)[k].workspace)
  {
    if order != [] {
      EntriesAreListed(sessions, ranks, order[1..]);
      var own := Filter(sessions, InWorkspace(order[0].0));
      FilterElements(sessions, InWorkspace(order[0].0));
      SortedElements(own, ranks);
      var shown := Sort(own, Before(ranks));
      forall k | 0 <= k < |shown|
        ensures shown[k].workspace == order[0].0
      {
        assert shown[k] in own;
      }
      assert order[0].0 == order[0].0 && Lists(order, order[0].0);
      assert forall ws :: Lists(order[1..], ws) ==> Lists(order, ws);
    }
  }

  lemma BlockIdsDiffer(sessions: seq<Session>, ranks: Ranks, x: (Workspace, Option<string>))
    requires DistinctIds(sessions)
    ensures var block := RingOf(sessions, ranks, [x]);
            forall k, l :: 0 <= k < |block| && 0 <= l < |block| && block[k].id == block[l].id ==> k == l
  {
    var own := Filter(sessions, InWorkspace(x.0));
    FilterKeepsDistinctIds(sessions, InWorkspace(x.0));
    SortPermutes(own, Before(ranks));
    IdsApart(own, Sort(own, Before(ranks)));
    assert [x][1..] == [];
  }

  ghost predicate IdsApartFrom(block: Ring, other: Ring) {
    forall k, l :: 0 <= k < |block| && 0 <= l < |other| ==> block[k].id != other[l].id
  }

  lemma BlocksAreListedTwice(a: Ring, b: Ring, m: Ring, c: Ring)
    requires forall k, l :: 0 <= k < |b| && 0 <= l < |b| && b[k].id == b[l].id ==> k == l
    requires IdsApartFrom(b, a) && IdsApartFrom(b, m) && IdsApartFrom(b, c)
    ensures ListedTwice(a + b + m + b + c, |a|, |a| + |b| + |m|, |b|)
    ensures Without(a + b + m + b + c, |a| + |b| + |m|, |b|) == a + b + m + c
  {
    var ring, i, j, n := a + b + m + b + c, |a|, |a| + |b| + |m|, |b|;
    forall k | j <= k < j + n
      ensures ring[k] == ring[k - j + i]
    {
      assert ring[k] == b[k - j] && ring[k - j + i] == b[k - j];
    }
    forall k, l | j <= k < j + n && 0 <= l < |ring| && l != k && l != k - j + i
      ensures ring[l].id != ring[k].id
    {
      assert ring[k] == b[k - j];
      if l < i {
        assert ring[l] == a[l];
      } else if l < i + n {
        assert ring[l] == b[l - i];
      } else if l < j {
        assert ring[l] == m[l - i - n];
      } else if l < j + n {
        assert ring[l] == b[l - j];
      } else {
        assert ring[l] == c[l - j - n];
      }
    }
  }

  /** Workspaces listed apart have no session in common. */
  lemma OtherBlocksAreApart(sessions: seq<Session>, ranks: Ranks, x: (Workspace, Option<string>), other: Order)
    requires DistinctIds(sessions) && !Lists(other, x.0)
    ensures IdsApartFrom(RingOf(sessions, ranks, [x]), RingOf(sessions, ranks, other))
  {
    var b, c := RingOf(sessions, ranks, [x]), RingOf(sessions, ranks, other);
    RingListsSessions(sessions, ranks, [x]);
    RingListsSessions(sessions, ranks, other);
    EntriesAreListed(sessions, ranks, [x]);
    EntriesAreListed(sessions, ranks, other);
    forall k, l | 0 <= k < |b| && 0 <= l < |c|
      ensures b[k].id != c[l].id
    {
      assert Lists([x], b[k].workspace) && Lists(other, c[l].workspace);
      OtherHomeOtherSession(sessions, b[k].workspace, c[l].workspace, b[k].id, c[l].id);
    }
  }

  lemma OtherHomeOtherSession(sessions: seq<Session>, a: Workspace, b: Workspace, m: nat, n: nat)
    requires DistinctIds(sessions) && a != b && Holds(sessions, a, m) && Holds(sessions, b, n)
    ensures m != n
  {
  }

  /** An order of workspaces that lists one of them twice. */
  datatype Doubled = Doubled(before: Order, twice: (Workspace, Option<string>), between: Order, behind: Order) {
    function Full(): Order { before + [twice] + between + [twice] + behind }

    function Once(): Order { before + [twice] + between + behind }

    ghost predicate OnlyTwice() {
      !Lists(before, twice.0) && !Lists(between, twice.0) && !Lists(behind, twice.0)
    }
  }

  /** Slots of the two listings: where each begins, and how long they are. */
  function FirstListing(sessions: seq<Session>, ranks: Ranks, d: Doubled): nat {
    |RingOf(sessions, ranks, d.before)|
  }

  function ListingSize(sessions: seq<Session>, ranks: Ranks, d: Doubled): nat {
    |RingOf(sessions, ranks, [d.twice])|
  }

  function SecondListing(sessions: seq<Session>, ranks: Ranks, d: Doubled): nat {
    FirstListing(sessions, ranks, d) + ListingSize(sessions, ranks, d) + |RingOf(sessions, ranks, d.between)|
  }

  lemma RingOfDoubled(sessions: seq<Session>, ranks: Ranks, d: Doubled)
    ensures var b := RingOf(sessions, ranks, [d.twice]);
            var a, m, c := RingOf(sessions, ranks, d.before), RingOf(sessions, ranks, d.between), RingOf(sessions, ranks, d.behind);
            RingOf(sessions, ranks, d.Full()) == a + b + m + b + c && RingOf(sessions, ranks, d.Once()) == a + b + m + c
  {
    RingOfConcat(sessions, ranks, d.before, [d.twice]);
    RingOfConcat(sessions, ranks, d.before + [d.twice], d.between);
    RingOfConcat(sessions, ranks, d.before + [d.twice] + d.between, [d.twice]);
    RingOfConcat(sessions, ranks, d.before + [d.twice] + d.between + [d.twice], d.behind);
    RingOfConcat(sessions, ranks, d.before + [d.twice] + d.between, d.behind);
  }

  lemma DoubledRing(sessions: seq<Session>, ranks: Ranks, d: Doubled)
    requires DistinctIds(sessions) && d.OnlyTwice()
    ensures var ring := RingOf(sessions, ranks, d.Full());
            var i, j, n := FirstListing(sessions, ranks, d), SecondListing(sessions, ranks, d), ListingSize(sessions, ranks, d);
            ListedTwice(ring, i, j, n) && RingOf(sessions, ranks, d.Once()) == Without(ring, j, n)
  {
    var b := RingOf(sessions, ranks, [d.twice]);
    RingOfDoubled(sessions, ranks, d);
    BlockIdsDiffer(sessions, ranks, d.twice);
    OtherBlocksAreApart(sessions, ranks, d.twice, d.before);
    OtherBlocksAreApart(sessions, ranks, d.twice, d.between);
    OtherBlocksAreApart(sessions, ranks, d.twice, d.behind);
    BlocksAreListedTwice(RingOf(sessions, ranks, d.before), b, RingOf(sessions, ranks, d.between), RingOf(sessions, ranks, d.behind));
  }

  /** A workspace that two projects list stands in the ring twice. For every
      removal, leaving the second listing out keeps the answer exactly when the
      search does not come to that listing (something nearer survives, or none
      of its sessions does), or gets back to the same session: then nothing
      survives behind it and one session alone between the first listing and
      the span, or nothing between the two listings in front of the span. */
  lemma SecondListingMattersExactlyWhen(sessions: seq<Session>, ranks: Ranks, d: Doubled, removed: seq<nat>,
                                        prefer: Option<string>, first: nat, last: nat)
    requires DistinctIds(sessions) && d.OnlyTwice()
    requires Span(RingOf(sessions, ranks, d.Full()), removed, first, last)
    ensures var ring := RingOf(sessions, ranks, d.Full());
            var i, j, n := FirstListing(sessions, ranks, d), SecondListing(sessions, ranks, d), ListingSize(sessions, ranks, d);
            var group := Deciding(ring, first, last, prefer, removed);
            && i + n <= j && j + n <= |ring|
            && (RingLanding(RingOf(sessions, ranks, d.Once()), removed, prefer) == RingLanding(ring, removed, prefer)
                <==> (Reaches(ring, j, n, first, last, group, removed) ==>
                        Returns(ring, i, j, n, first, last, group, removed)))
  {
    DoubledRing(sessions, ranks, d);
    BlockMattersExactlyWhen(RingOf(sessions, ranks, d.Full()), FirstListing(sessions, ranks, d),
                            SecondListing(sessions, ranks, d), ListingSize(sessions, ranks, d), removed, prefer, first, last);
  }

  /** A removal that the ring does not hold lands nowhere, listed twice or not. */
  lemma UnlistedRemovalLandsNowhere(sessions: seq<Session>, ranks: Ranks, d: Doubled, removed: seq<nat>, prefer: Option<string>)
    requires DistinctIds(sessions) && d.OnlyTwice()
    requires Positions(RingOf(sessions, ranks, d.Full()), removed) == []
    ensures RingLanding(RingOf(sessions, ranks, d.Full()), removed, prefer).None?
    ensures RingLanding(RingOf(sessions, ranks, d.Once()), removed, prefer).None?
  {
    DoubledRing(sessions, ranks, d);
    PositionsWithout(RingOf(sessions, ranks, d.Full()), FirstListing(sessions, ranks, d),
                     SecondListing(sessions, ranks, d), ListingSize(sessions, ranks, d), removed);
  }

  // ---- A removal it changes ----

  /** One project lists the paths /a, /b and /c, another lists /a again. */
  const TWO_PROJECTS := Doubled([(None, None)], (Some("/a"), Some("/p")), [(Some("/b"), Some("/p")), (Some("/c"), Some("/p"))], [])

  const ONE_EACH: seq<Session> :=
    [Session(Some("/a"), 1, None, Shell), Session(Some("/b"), 2, None, Shell), Session(Some("/c"), 3, None, Shell)]

  function Entry(ws: string, id: nat): RingEntry {
    RingEntry(Some("/p"), Some(ws), id)
  }

  /** One session in its workspace's part of the ring. */
  lemma OneRow(sessions: seq<Session>, ranks: Ranks, ws: Workspace, project: Option<string>, x: Session)
    requires Filter(sessions, InWorkspace(ws)) == [x]
    ensures RingOf(sessions, ranks, [(ws, project)]) == [RingEntry(project, x.workspace, x.id)]
  {
    assert [(ws, project)][1..] == [];
    assert [x][1..] == [];
    assert Sort([x], Before(ranks)) == [x];
  }

  lemma RowsOfEach()
    ensures Filter(ONE_EACH, InWorkspace(None)) == []
    ensures Filter(ONE_EACH, InWorkspace(Some("/a"))) == [ONE_EACH[0]]
    ensures Filter(ONE_EACH, InWorkspace(Some("/b"))) == [ONE_EACH[1]]
    ensures Filter(ONE_EACH, InWorkspace(Some("/c"))) == [ONE_EACH[2]]
  {
    PicksOfThree(ONE_EACH, InWorkspace(None));
    PicksOfThree(ONE_EACH, InWorkspace(Some("/a")));
    PicksOfThree(ONE_EACH, InWorkspace(Some("/b")));
    PicksOfThree(ONE_EACH, InWorkspace(Some("/c")));
  }

  lemma PicksOfThree<T>(s: seq<T>, p: T -> bool)
    requires |s| == 3
    ensures Filter(s, p) == (if p(s[0]) then [s[0]] else []) + (if p(s[1]) then [s[1]] else []) + (if p(s[2]) then [s[2]] else [])
  {
    assert s[1..][1..] == [s[2]];
    FilterOne(s[2], p);
    Associate(if p(s[0]) then [s[0]] else [], if p(s[1]) then [s[1]] else [], if p(s[2]) then [s[2]] else []);
  }

  lemma SingleRings(ranks: Ranks)
    ensures RingOf(ONE_EACH, ranks, [(None, None)]) == []
    ensures RingOf(ONE_EACH, ranks, [(Some("/a"), Some("/p"))]) == [Entry("/a", 1)]
    ensures RingOf(ONE_EACH, ranks, [(Some("/b"), Some("/p"))]) == [Entry("/b", 2)]
    ensures RingOf(ONE_EACH, ranks, [(Some("/c"), Some("/p"))]) == [Entry("/c", 3)]
  {
    RowsOfEach();
    var home: Order := [(None, None)];
    assert home[1..] == [];
    OneRow(ONE_EACH, ranks, Some("/a"), Some("/p"), ONE_EACH[0]);
    OneRow(ONE_EACH, ranks, Some("/b"), Some("/p"), ONE_EACH[1]);
    OneRow(ONE_EACH, ranks, Some("/c"), Some("/p"), ONE_EACH[2]);
  }

  lemma BetweenRing(ranks: Ranks)
    ensures RingOf(ONE_EACH, ranks, TWO_PROJECTS.between) == [Entry("/b", 2), Entry("/c", 3)]
  {
    var b, c: Order := [(Some("/b"), Some("/p"))], [(Some("/c"), Some("/p"))];
    SingleRings(ranks);
    RingOfConcat(ONE_EACH, ranks, b, c);
    assert TWO_PROJECTS.between == b + c;
  }

  lemma PartsOfTwoProjects(ranks: Ranks)
    ensures RingOf(ONE_EACH, ranks, TWO_PROJECTS.before) == []
    ensures RingOf(ONE_EACH, ranks, [TWO_PROJECTS.twice]) == [Entry("/a", 1)]
    ensures RingOf(ONE_EACH, ranks, TWO_PROJECTS.between) == [Entry("/b", 2), Entry("/c", 3)]
    ensures RingOf(ONE_EACH, ranks, TWO_PROJECTS.behind) == []
  {
    SingleRings(ranks);
    BetweenRing(ranks);
  }

  lemma TwoProjectsRing(sessions: seq<Session>, ranks: Ranks, d: Doubled)
    requires RingOf(sessions, ranks, d.before) == [] && RingOf(sessions, ranks, d.behind) == []
    requires RingOf(sessions, ranks, [d.twice]) == [Entry("/a", 1)]
    requires RingOf(sessions, ranks, d.between) == [Entry("/b", 2), Entry("/c", 3)]
    ensures RingOf(sessions, ranks, d.Full()) == [Entry("/a", 1), Entry("/b", 2), Entry("/c", 3), Entry("/a", 1)]
    ensures RingOf(sessions, ranks, d.Once()) == [Entry("/a", 1), Entry("/b", 2), Entry("/c", 3)]
  {
    RingOfDoubled(sessions, ranks, d);
    FourInARow(Entry("/a", 1), Entry("/b", 2), Entry("/c", 3));
  }

  lemma FourInARow(x: RingEntry, y: RingEntry, z: RingEntry)
    ensures [] + [x] + [y, z] + [x] + [] == [x, y, z, x]
    ensures [] + [x] + [y, z] + [] == [x, y, z]
  {
  }

  lemma LandingOfThree()
    ensures RingLanding([Entry("/a", 1), Entry("/b", 2), Entry("/c", 3)], [3], None) == Some((Some("/b"), 2))
  {
    var ring := [Entry("/a", 1), Entry("/b", 2), Entry("/c", 3)];
    RingPositionIs(ring, 3, Some(2));
    assert [3 as nat][1..] == [];
    assert Positions(ring, [3]) == [2];
    SearchIs(ring, 2, 2, None, [3], Some(1));
  }

  lemma LandingOfFour()
    ensures RingLanding([Entry("/a", 1), Entry("/b", 2), Entry("/c", 3), Entry("/a", 1)], [3], None) == Some((Some("/a"), 1))
  {
    var ring := [Entry("/a", 1), Entry("/b", 2), Entry("/c", 3), Entry("/a", 1)];
    RingPositionIs(ring, 3, Some(2));
    assert [3 as nat][1..] == [];
    assert Positions(ring, [3]) == [2];
    SearchIs(ring, 2, 2, None, [3], Some(3));
  }

  /** Closing the tab of /c lands on /a, for its second listing comes next; with
      /a listed once it would land on /b. */
  lemma SecondListingChangesTheLanding(ranks: Ranks)
    ensures RingLanding(RingOf(ONE_EACH, ranks, TWO_PROJECTS.Full()), [3], None) == Some((Some("/a"), 1))
    ensures RingLanding(RingOf(ONE_EACH, ranks, TWO_PROJECTS.Once()), [3], None) == Some((Some("/b"), 2))
  {
    PartsOfTwoProjects(ranks);
    TwoProjectsRing(ONE_EACH, ranks, TWO_PROJECTS);
    LandingOfThree();
    LandingOfFour();
  }
}
