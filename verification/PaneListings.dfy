/** The rows a workspace lists while multiplexers list panes, and the rows it
    lists once one of its tabs has closed. */
module PaneListings {
  import opened CloseLandings
  import opened DisplayOrder
  import opened Neighbours
  import opened Options
  import opened Seqs
  import opened Sessions
  import opened StableSort

  /** A pane as its multiplexer lists it, and the workspace whose rows would hold
      it, unless it is kept off the sidebar. */
  datatype Listed = Listed(pane: string, under: Option<Workspace>)

  type Listing = seq<Listed>

  /** Every pane is listed once, and never at the rank of one that is not. */
  ghost predicate WellListed(listing: Listing) {
    && |listing| <= UNLISTED
    && forall i, j :: 0 <= i < j < |listing| ==> listing[i].pane != listing[j].pane
  }

  function PlaceIn(listing: Listing, pane: string): (at: Option<nat>)
    ensures at.Some? ==> at.value < |listing| && listing[at.value].pane == pane
    ensures at.None? ==> forall i :: 0 <= i < |listing| ==> listing[i].pane != pane
    decreases |listing|
  {
    if listing == [] then None
    else if listing[0].pane == pane then Some(0)
    else
      match PlaceIn(listing[1..], pane)
      case None => None
      case Some(i) => Some(i + 1)
  }

  function RanksOf(listing: Listing): Ranks {
    pane => PlaceIn(listing, pane)
  }

  predicate Claims(sessions: seq<Session>, pane: string) {
    exists i :: 0 <= i < |sessions| && sessions[i].pane == Some(pane)
  }

  function Offered(sessions: seq<Session>, ws: Workspace): Listed -> bool {
    (l: Listed) => l.under == Some(ws) && !Claims(sessions, l.pane)
  }

  function PaneOf(): Listed -> string { (l: Listed) => l.pane }

  /** The panes listed under a workspace that no session holds. */
  function Unclaimed(listing: Listing, sessions: seq<Session>, ws: Workspace): seq<string> {
    Map(Filter(listing, Offered(sessions, ws)), PaneOf())
  }

  function RowsFor(sessions: seq<Session>, listing: Listing, ws: Workspace, always: bool): seq<Entry> {
    ListedRows(sessions, RanksOf(listing), Unclaimed(listing, sessions, ws), ws, always)
  }

  // ---- What a close does to the rows ----

  /** Closing the session gives its pane back to the workspace's rows: it has one,
      listed under that workspace, and no other session holds it. */
  predicate PaneReturns(sessions: seq<Session>, listing: Listing, idx: nat)
    requires idx < |sessions|
  {
    var x := sessions[idx];
    x.pane.Some? && Listed(x.pane.value, Some(x.workspace)) in listing && !Claims(RemoveAt(sessions, idx), x.pane.value)
  }

  /** What is left of the workspace is one shell, which is not listed on its own. */
  predicate LeavesLoneShell(sessions: seq<Session>, listing: Listing, idx: nat, always: bool)
    requires idx < |sessions|
  {
    var left, ws := RemoveAt(sessions, idx), sessions[idx].workspace;
    var own := Filter(left, InWorkspace(ws));
    !always && |own| == 1 && own[0].pane.None? && Unclaimed(listing, left, ws) == []
  }

  // ---- Filtering and sorting ----

  lemma FilterDropsOne<T>(s: seq<T>, i: nat, keep: T -> bool)
    requires i < |s| && forall k :: 0 <= k < |s| ==> (keep(s[k]) <==> k != i)
    ensures Filter(s, keep) == RemoveAt(s, i)
  {
    KeepsFront(s, i, keep);
    KeepsRest(s, i + 1, keep);
    DropsBetween(s, i, keep);
  }

  lemma DropsBetween<T>(s: seq<T>, i: nat, keep: T -> bool)
    requires i < |s| && !keep(s[i]) && Filter(s[..i], keep) == s[..i] && Filter(s[i + 1..], keep) == s[i + 1..]
    ensures Filter(s, keep) == RemoveAt(s, i)
  {
    FilterAt(s, i, keep);
    assert s[..i] + [] == s[..i];
  }

  lemma KeepsFront<T>(s: seq<T>, i: nat, keep: T -> bool)
    requires i <= |s| && forall k :: 0 <= k < i ==> keep(s[k])
    ensures Filter(s[..i], keep) == s[..i]
  {
    forall x | x in s[..i]
      ensures keep(x)
    {
      var k := IndexIn(s[..i], x);
      assert s[k] == x;
    }
    FilterAll(s[..i], keep);
  }

  lemma KeepsRest<T>(s: seq<T>, i: nat, keep: T -> bool)
    requires i <= |s| && forall k :: i <= k < |s| ==> keep(s[k])
    ensures Filter(s[i..], keep) == s[i..]
  {
    forall x | x in s[i..]
      ensures keep(x)
    {
      var k := IndexIn(s[i..], x);
      assert s[i + k] == x;
    }
    FilterAll(s[i..], keep);
  }

  lemma {:induction false} FiltersCommute<T>(s: seq<T>, p: T -> bool, q: T -> bool)
    ensures Filter(Filter(s, p), q) == Filter(Filter(s, q), p)
  {
    if s != [] {
      FiltersCommute(s[1..], p, q);
      FilterConcat(if p(s[0]) then [s[0]] else [], Filter(s[1..], p), q);
      FilterConcat(if q(s[0]) then [s[0]] else [], Filter(s[1..], q), p);
      FilterOne(s[0], p);
      FilterOne(s[0], q);
    }
  }

  lemma MapIs<T, U>(s: seq<T>, f: T -> U, r: seq<U>)
    requires |r| == |s| && forall k :: 0 <= k < |s| ==> r[k] == f(s[k])
    ensures Map(s, f) == r
  {
  }

  lemma {:induction false} FilterImplied<T>(s: seq<T>, p: T -> bool, q: T -> bool)
    requires forall x :: x in s && q(x) ==> p(x)
    ensures Filter(Filter(s, p), q) == Filter(s, q)
  {
    if s != [] {
      assert forall x :: x in s[1..] ==> x in s;
      FilterImplied(s[1..], p, q);
      FilterConcat(if p(s[0]) then [s[0]] else [], Filter(s[1..], p), q);
      FilterOne(s[0], q);
    }
  }

  lemma {:induction false} FilterMap<T, U>(s: seq<T>, f: T -> U, q: U -> bool, r: T -> bool)
    requires forall x :: x in s ==> r(x) == q(f(x))
    ensures Filter(Map(s, f), q) == Map(Filter(s, r), f)
  {
    if s != [] {
      assert forall x :: x in s[1..] ==> x in s;
      FilterMap(s[1..], f, q, r);
      assert Map(s, f)[1..] == Map(s[1..], f);
      MapConcat(if r(s[0]) then [s[0]] else [], Filter(s[1..], r), f);
    }
  }

  lemma {:induction false} FilterFinds<T>(s: seq<T>, x: T, q: T -> bool)
    requires Distinct(s) && x in s && forall y :: y in s ==> (q(y) <==> y == x)
    ensures Filter(s, q) == [x]
  {
    assert forall y :: y in s[1..] ==> y in s;
    if s[0] == x {
      FilterNone(s[1..], q);
    } else {
      FilterFinds(s[1..], x, q);
    }
  }

  function Below(r: nat): Managed -> bool { (m: Managed) => m.at < r }
  function NotBelow(r: nat): Managed -> bool { (m: Managed) => m.at >= r }
  function At(r: nat): Managed -> bool { (m: Managed) => m.at == r }
  function Above(r: nat): Managed -> bool { (m: Managed) => m.at > r }

  /** A sort puts the lower ranks first, then one rank as it stands, then the
      higher ones. */
  lemma SortInThree(m: seq<Managed>, r: nat)
    ensures Sort(m, ByRank())
         == Sort(Filter(m, Below(r)), ByRank()) + Filter(m, At(r)) + Sort(Filter(m, Above(r)), ByRank())
  {
    SplitsByRank(m, Below(r), NotBelow(r));
    SortUpper(m, r);
    Associate(Sort(Filter(m, Below(r)), ByRank()), Filter(m, At(r)), Sort(Filter(m, Above(r)), ByRank()));
  }

  lemma SortUpper(m: seq<Managed>, r: nat)
    ensures Sort(Filter(m, NotBelow(r)), ByRank()) == Filter(m, At(r)) + Sort(Filter(m, Above(r)), ByRank())
  {
    FilterElements(m, NotBelow(r));
    SplitsByRank(Filter(m, NotBelow(r)), At(r), Above(r));
    FilterImplied(m, NotBelow(r), At(r));
    FilterImplied(m, NotBelow(r), Above(r));
    FilterElements(m, At(r));
    SortOfEquals(Filter(m, At(r)), ByRank());
  }

  lemma SplitsByRank(m: seq<Managed>, p: Managed -> bool, q: Managed -> bool)
    requires forall x :: x in m ==> (q(x) <==> !p(x))
    requires forall x, y :: x in m && y in m && p(x) && q(y) ==> x.at < y.at
    ensures Sort(m, ByRank()) == Sort(Filter(m, p), ByRank()) + Sort(Filter(m, q), ByRank())
  {
    var sorted := Sort(m, ByRank());
    SortSorted(m, ByRank());
    SortPermutes(m, ByRank());
    SameElements(sorted, m);
    SortedSplits(sorted, ByRank(), p, q);
    SortFilter(m, ByRank(), p);
    SortFilter(m, ByRank(), q);
  }

  // ---- The sessions and panes that are left ----

  function OtherThan(id: nat): Session -> bool { (s: Session) => s.id != id }

  function SessionsOf(sessions: seq<Session>, ws: Workspace): seq<Session> {
    Filter(sessions, InWorkspace(ws))
  }

  function AttachedRows(sessions: seq<Session>, ranks: Ranks, ws: Workspace): seq<Managed> {
    Map(Filter(SessionsOf(sessions, ws), HasPane()), Attached(ranks))
  }

  function DetachedRows(sessions: seq<Session>, listing: Listing, ws: Workspace): seq<Managed> {
    Map(Unclaimed(listing, sessions, ws), Detached(RanksOf(listing)))
  }

  lemma SessionsLeft(sessions: seq<Session>, idx: nat)
    requires DistinctIds(sessions) && idx < |sessions|
    ensures var x := sessions[idx];
            SessionsOf(RemoveAt(sessions, idx), x.workspace) == Filter(SessionsOf(sessions, x.workspace), OtherThan(x.id))
  {
    var x := sessions[idx];
    FilterDropsOne(sessions, idx, OtherThan(x.id));
    FiltersCommute(sessions, InWorkspace(x.workspace), OtherThan(x.id));
  }

  lemma OwnSessions(sessions: seq<Session>, idx: nat)
    requires DistinctIds(sessions) && idx < |sessions|
    ensures var x := sessions[idx];
            x in SessionsOf(sessions, x.workspace)
            && forall y :: y in SessionsOf(sessions, x.workspace) ==> y in sessions && y.workspace == x.workspace && (y.id == x.id ==> y == x)
  {
    FilterElements(sessions, InWorkspace(sessions[idx].workspace));
    forall y | y in sessions && y.id == sessions[idx].id
      ensures y == sessions[idx]
    {
      var k := IndexIn(sessions, y);
      assert k == idx;
    }
  }

  /** Filtered by anything the closed session fails, its workspace is as before. */
  lemma SessionsBesideOne(sessions: seq<Session>, idx: nat, p: Session -> bool)
    requires DistinctIds(sessions) && idx < |sessions| && !p(sessions[idx])
    ensures var ws := sessions[idx].workspace;
            Filter(SessionsOf(RemoveAt(sessions, idx), ws), p) == Filter(SessionsOf(sessions, ws), p)
  {
    SessionsLeft(sessions, idx);
    OwnSessions(sessions, idx);
    FilterImplied(SessionsOf(sessions, sessions[idx].workspace), OtherThan(sessions[idx].id), p);
  }

  lemma ClaimsAfter(sessions: seq<Session>, idx: nat, pane: string)
    requires idx < |sessions|
    ensures Claims(sessions, pane) <==> Claims(RemoveAt(sessions, idx), pane) || sessions[idx].pane == Some(pane)
  {
    var left := RemoveAt(sessions, idx);
    if Claims(left, pane) {
      var i :| 0 <= i < |left| && left[i].pane == Some(pane);
      assert sessions[if i < idx then i else i + 1] == left[i];
    }
    if Claims(sessions, pane) && sessions[idx].pane != Some(pane) {
      var i :| 0 <= i < |sessions| && sessions[i].pane == Some(pane);
      assert left[if i < idx then i else i - 1] == sessions[i];
    }
  }

  lemma AttachedLeft(sessions: seq<Session>, ranks: Ranks, idx: nat, q: Managed -> bool)
    requires DistinctIds(sessions) && idx < |sessions|
    requires sessions[idx].pane.Some? ==> !q(Attached(ranks)(sessions[idx]))
    ensures var ws := sessions[idx].workspace;
            Filter(AttachedRows(RemoveAt(sessions, idx), ranks, ws), q) == Filter(AttachedRows(sessions, ranks, ws), q)
  {
    var left, ws := RemoveAt(sessions, idx), sessions[idx].workspace;
    var r := (s: Session) => q(Attached(ranks)(s));
    var both := (s: Session) => HasPane()(s) && r(s);
    AttachedFiltered(SessionsOf(left, ws), ranks, q, r, both);
    AttachedFiltered(SessionsOf(sessions, ws), ranks, q, r, both);
    SessionsBesideOne(sessions, idx, both);
  }

  lemma AttachedFiltered(own: seq<Session>, ranks: Ranks, q: Managed -> bool, r: Session -> bool, both: Session -> bool)
    requires forall s :: r(s) == q(Attached(ranks)(s)) && both(s) == (HasPane()(s) && r(s))
    ensures Filter(Map(Filter(own, HasPane()), Attached(ranks)), q) == Map(Filter(own, both), Attached(ranks))
  {
    FilterMap(Filter(own, HasPane()), Attached(ranks), q, r);
    FilterBoth(own, HasPane(), r, both);
  }

  lemma {:induction false} FilterBoth<T>(s: seq<T>, p: T -> bool, q: T -> bool, both: T -> bool)
    requires forall x :: x in s ==> both(x) == (p(x) && q(x))
    ensures Filter(Filter(s, p), q) == Filter(s, both)
  {
    if s != [] {
      assert forall x :: x in s[1..] ==> x in s;
      FilterBoth(s[1..], p, q, both);
      FilterConcat(if p(s[0]) then [s[0]] else [], Filter(s[1..], p), q);
      FilterOne(s[0], q);
    }
  }

  lemma DetachedLeft(sessions: seq<Session>, listing: Listing, idx: nat, q: Managed -> bool)
    requires idx < |sessions|
    requires PaneReturns(sessions, listing, idx) ==> !q(Detached(RanksOf(listing))(sessions[idx].pane.value))
    ensures var ws := sessions[idx].workspace;
            Filter(DetachedRows(RemoveAt(sessions, idx), listing, ws), q) == Filter(DetachedRows(sessions, listing, ws), q)
  {
    var left, ws, ranks := RemoveAt(sessions, idx), sessions[idx].workspace, RanksOf(listing);
    var r := (l: Listed) => q(Detached(ranks)(l.pane));
    var after := (l: Listed) => Offered(left, ws)(l) && r(l);
    DetachedFiltered(listing, left, ws, q, r, after);
    DetachedFiltered(listing, sessions, ws, q, r, (l: Listed) => Offered(sessions, ws)(l) && r(l));
    forall l | l in listing
      ensures after(l) == (Offered(sessions, ws)(l) && r(l))
    {
      ClaimsAfter(sessions, idx, l.pane);
      assert l.under == Some(ws) ==> l == Listed(l.pane, Some(ws));
    }
    FilterSame(listing, after, (l: Listed) => Offered(sessions, ws)(l) && r(l));
  }

  lemma {:induction false} FilterSame<T>(s: seq<T>, p: T -> bool, q: T -> bool)
    requires forall x :: x in s ==> p(x) == q(x)
    ensures Filter(s, p) == Filter(s, q)
  {
    if s != [] {
      assert forall x :: x in s[1..] ==> x in s;
      FilterSame(s[1..], p, q);
    }
  }

  lemma DetachedFiltered(listing: Listing, sessions: seq<Session>, ws: Workspace,
                         q: Managed -> bool, r: Listed -> bool, both: Listed -> bool)
    requires forall l :: r(l) == q(Detached(RanksOf(listing))(l.pane)) && both(l) == (Offered(sessions, ws)(l) && r(l))
    ensures Filter(DetachedRows(sessions, listing, ws), q)
         == Map(Map(Filter(listing, both), PaneOf()), Detached(RanksOf(listing)))
  {
    var ranks, offered := RanksOf(listing), Filter(listing, Offered(sessions, ws));
    FilterMap(Map(offered, PaneOf()), Detached(ranks), q, pane => q(Detached(ranks)(pane)));
    FilterMap(offered, PaneOf(), pane => q(Detached(ranks)(pane)), r);
    FilterBoth(listing, Offered(sessions, ws), r, both);
  }

  // ---- A pane that returns takes its session's place ----

  function RankAt(listing: Listing, pane: string): nat { RankOf(RanksOf(listing), pane) }

  lemma RanksApart(listing: Listing, pane: string, other: string)
    requires WellListed(listing) && PlaceIn(listing, pane).Some?
    ensures RankAt(listing, other) == RankAt(listing, pane) <==> other == pane
  {
  }

  lemma AttachedAtRank(sessions: seq<Session>, listing: Listing, idx: nat)
    requires DistinctIds(sessions) && WellListed(listing) && idx < |sessions| && PaneReturns(sessions, listing, idx)
    ensures var x, ranks := sessions[idx], RanksOf(listing);
            var at := At(RankAt(listing, x.pane.value));
            && Filter(AttachedRows(sessions, ranks, x.workspace), at) == [Attached(ranks)(x)]
            && Filter(AttachedRows(RemoveAt(sessions, idx), ranks, x.workspace), at) == []
  {
    var x, left, ranks := sessions[idx], RemoveAt(sessions, idx), RanksOf(listing);
    var r := RankAt(listing, x.pane.value);
    var holds := (s: Session) => s.pane == x.pane;
    forall s: Session | s.pane.Some?
      ensures Attached(ranks)(s).at == r <==> s.pane == x.pane
    {
      RanksApart(listing, x.pane.value, s.pane.value);
    }
    var reaches := (s: Session) => At(r)(Attached(ranks)(s));
    var both := (s: Session) => HasPane()(s) && reaches(s);
    AttachedFiltered(SessionsOf(sessions, x.workspace), ranks, At(r), reaches, both);
    AttachedFiltered(SessionsOf(left, x.workspace), ranks, At(r), reaches, both);
    HoldersOfThePane(sessions, idx, both);
    assert Map([x], Attached(ranks)) == [Attached(ranks)(x)];
  }

  lemma HoldersOfThePane(sessions: seq<Session>, idx: nat, holds: Session -> bool)
    requires DistinctIds(sessions) && idx < |sessions| && sessions[idx].pane.Some?
    requires !Claims(RemoveAt(sessions, idx), sessions[idx].pane.value)
    requires forall s: Session :: holds(s) <==> s.pane == sessions[idx].pane
    ensures Filter(SessionsOf(sessions, sessions[idx].workspace), holds) == [sessions[idx]]
    ensures Filter(SessionsOf(RemoveAt(sessions, idx), sessions[idx].workspace), holds) == []
  {
    var x, left := sessions[idx], RemoveAt(sessions, idx);
    OwnSessions(sessions, idx);
    FilterElements(left, InWorkspace(x.workspace));
    forall y | y in left
      ensures !holds(y)
    {
      var i := IndexIn(left, y);
    }
    forall y | y in sessions && holds(y)
      ensures y == x
    {
      var i := IndexIn(sessions, y);
      OthersStay(sessions, idx, i);
    }
    FilterNone(SessionsOf(left, x.workspace), holds);
    SessionsAreDistinct(sessions, x.workspace);
    FilterFinds(SessionsOf(sessions, x.workspace), x, holds);
  }

  lemma OthersStay<T>(s: seq<T>, idx: nat, i: nat)
    requires idx < |s| && i < |s|
    ensures i != idx ==> s[i] in RemoveAt(s, idx)
  {
    if i != idx {
      assert RemoveAt(s, idx)[if i < idx then i else i - 1] == s[i];
    }
  }

  lemma SessionsAreDistinct(sessions: seq<Session>, ws: Workspace)
    requires DistinctIds(sessions)
    ensures Distinct(SessionsOf(sessions, ws)) && DistinctIds(SessionsOf(sessions, ws))
  {
    FilterKeepsDistinctIds(sessions, InWorkspace(ws));
  }

  lemma DetachedAtRank(sessions: seq<Session>, listing: Listing, idx: nat)
    requires WellListed(listing) && idx < |sessions| && PaneReturns(sessions, listing, idx)
    ensures var x, ranks := sessions[idx], RanksOf(listing);
            var at := At(RankAt(listing, x.pane.value));
            && Filter(DetachedRows(sessions, listing, x.workspace), at) == []
            && Filter(DetachedRows(RemoveAt(sessions, idx), listing, x.workspace), at) == [Detached(ranks)(x.pane.value)]
  {
    var x, left, ranks := sessions[idx], RemoveAt(sessions, idx), RanksOf(listing);
    var r, l := RankAt(listing, x.pane.value), Listed(x.pane.value, Some(x.workspace));
    var reaches := (l: Listed) => At(r)(Detached(ranks)(l.pane));
    var before, after := (l: Listed) => Offered(sessions, x.workspace)(l) && reaches(l),
                         (l: Listed) => Offered(left, x.workspace)(l) && reaches(l);
    DetachedFiltered(listing, sessions, x.workspace, At(r), reaches, before);
    DetachedFiltered(listing, left, x.workspace, At(r), reaches, after);
    forall m: Listed
      ensures reaches(m) <==> m.pane == x.pane.value
    {
      RanksApart(listing, x.pane.value, m.pane);
    }
    ClaimsAfter(sessions, idx, x.pane.value);
    FilterNone(listing, before);
    FilterFinds(listing, l, after);
    assert Map(Map([l], PaneOf()), Detached(ranks)) == [Detached(ranks)(l.pane)];
  }

  /** The managed rows around a returning pane's rank stay, and at that rank its
      row is the session's or, once that is closed, its own. */
  lemma ReturnsInPlace(sessions: seq<Session>, listing: Listing, idx: nat) returns (lower: seq<Managed>, upper: seq<Managed>)
    requires DistinctIds(sessions) && WellListed(listing) && idx < |sessions| && PaneReturns(sessions, listing, idx)
    ensures var x, ranks := sessions[idx], RanksOf(listing);
            var left := RemoveAt(sessions, idx);
            && Sort(AttachedRows(sessions, ranks, x.workspace) + DetachedRows(sessions, listing, x.workspace), ByRank())
               == lower + [Attached(ranks)(x)] + upper
            && Sort(AttachedRows(left, ranks, x.workspace) + DetachedRows(left, listing, x.workspace), ByRank())
               == lower + [Detached(ranks)(x.pane.value)] + upper
  {
    var x, left, ranks := sessions[idx], RemoveAt(sessions, idx), RanksOf(listing);
    var r := RankAt(listing, x.pane.value);
    var a, d := AttachedRows(sessions, ranks, x.workspace), DetachedRows(sessions, listing, x.workspace);
    var a', d' := AttachedRows(left, ranks, x.workspace), DetachedRows(left, listing, x.workspace);
    AttachedAtRank(sessions, listing, idx);
    DetachedAtRank(sessions, listing, idx);
    AroundTheRank(sessions, listing, idx, Below(r));
    AroundTheRank(sessions, listing, idx, Above(r));
    lower, upper := Sort(Filter(a + d, Below(r)), ByRank()), Sort(Filter(a + d, Above(r)), ByRank());
    OneAtTheRank(a, d, r, Attached(ranks)(x));
    OneAtTheRank(a', d', r, Detached(ranks)(x.pane.value));
  }

  lemma OneAtTheRank(a: seq<Managed>, d: seq<Managed>, r: nat, x: Managed)
    requires Filter(a, At(r)) + Filter(d, At(r)) == [x]
    ensures Sort(a + d, ByRank()) == Sort(Filter(a + d, Below(r)), ByRank()) + [x] + Sort(Filter(a + d, Above(r)), ByRank())
  {
    FilterConcat(a, d, At(r));
    SortInThree(a + d, r);
  }

  lemma AroundTheRank(sessions: seq<Session>, listing: Listing, idx: nat, q: Managed -> bool)
    requires DistinctIds(sessions) && idx < |sessions| && PaneReturns(sessions, listing, idx)
    requires forall m: Managed :: m.at == RankAt(listing, sessions[idx].pane.value) ==> !q(m)
    ensures var left, ranks, ws := RemoveAt(sessions, idx), RanksOf(listing), sessions[idx].workspace;
            Filter(AttachedRows(left, ranks, ws) + DetachedRows(left, listing, ws), q)
            == Filter(AttachedRows(sessions, ranks, ws) + DetachedRows(sessions, listing, ws), q)
  {
    var left, ranks, ws := RemoveAt(sessions, idx), RanksOf(listing), sessions[idx].workspace;
    AttachedLeft(sessions, ranks, idx, q);
    DetachedLeft(sessions, listing, idx, q);
    FilterConcat(AttachedRows(sessions, ranks, ws), DetachedRows(sessions, listing, ws), q);
    FilterConcat(AttachedRows(left, ranks, ws), DetachedRows(left, listing, ws), q);
  }

  // ---- No row is listed twice ----

  function ShellRows(sessions: seq<Session>, ws: Workspace): seq<Entry> {
    Map(Map(Filter(SessionsOf(sessions, ws), IsShell()), Id()), AsRow())
  }

  function ManagedOf(sessions: seq<Session>, listing: Listing, ws: Workspace): seq<Managed> {
    AttachedRows(sessions, RanksOf(listing), ws) + DetachedRows(sessions, listing, ws)
  }

  function ManagedEntries(sessions: seq<Session>, listing: Listing, ws: Workspace): seq<Entry> {
    Map(Sort(ManagedOf(sessions, listing, ws), ByRank()), EntryOf())
  }

  lemma RowsInParts(sessions: seq<Session>, listing: Listing, ws: Workspace, always: bool)
    ensures var shells, managed := ShellRows(sessions, ws), ManagedEntries(sessions, listing, ws);
            RowsFor(sessions, listing, ws, always)
            == (if |shells| + |managed| >= (if always then 1 else 2) then shells else []) + managed
  {
    SortPermutes(ManagedOf(sessions, listing, ws), ByRank());
    SameLength(Sort(ManagedOf(sessions, listing, ws), ByRank()), ManagedOf(sessions, listing, ws));
  }

  lemma SameLength<T>(s: seq<T>, t: seq<T>)
    requires multiset(s) == multiset(t)
    ensures |s| == |t|
  {
    assert |multiset(s)| == |s| && |multiset(t)| == |t|;
  }

  lemma {:induction false} MapInsertPermutes<T, U>(x: T, s: seq<T>, le: (T, T) -> bool, f: T -> U)
    ensures multiset(Map(Insert(x, s, le), f)) == multiset{f(x)} + multiset(Map(s, f))
  {
    if s != [] && !le(x, s[0]) {
      MapInsertPermutes(x, s[1..], le, f);
      MapConcat([s[0]], Insert(x, s[1..], le), f);
      assert Map(s, f) == [f(s[0])] + Map(s[1..], f);
    } else {
      MapConcat([x], s, f);
    }
  }

  lemma {:induction false} MapSortPermutes<T, U>(s: seq<T>, le: (T, T) -> bool, f: T -> U)
    ensures multiset(Map(Sort(s, le), f)) == multiset(Map(s, f))
  {
    if s != [] {
      MapSortPermutes(s[1..], le, f);
      MapInsertPermutes(s[0], Sort(s[1..], le), le, f);
      assert Map(s, f) == [f(s[0])] + Map(s[1..], f);
    }
  }

  lemma ConcatDistinct<T>(a: seq<T>, b: seq<T>)
    requires Distinct(a) && Distinct(b) && forall x :: x in a ==> x !in b
    ensures Distinct(a + b)
  {
    forall i, j | 0 <= i < j < |a + b|
      ensures (a + b)[i] != (a + b)[j]
    {
      if i < |a| <= j {
        assert a[i] in a && b[j - |a|] in b;
      }
    }
  }

  lemma MapHas<T, U>(s: seq<T>, f: T -> U)
    ensures forall y :: y in Map(s, f) <==> exists x :: x in s && f(x) == y
  {
    forall x | x in s
      ensures f(x) in Map(s, f)
    {
      var i := IndexIn(s, x);
      assert Map(s, f)[i] == f(x);
    }
  }

  ghost predicate HasRow(sessions: seq<Session>, ws: Workspace, id: nat, attached: bool) {
    exists s :: s in sessions && s.workspace == ws && s.id == id && s.pane.Some? == attached
  }

  lemma ShellRowsAre(sessions: seq<Session>, ws: Workspace)
    ensures forall e :: e in ShellRows(sessions, ws) <==> e.SessionRow? && HasRow(sessions, ws, e.id, false)
  {
    var shells := Filter(SessionsOf(sessions, ws), IsShell());
    FilterElements(sessions, InWorkspace(ws));
    FilterElements(SessionsOf(sessions, ws), IsShell());
    MapHas(shells, Id());
    MapHas(Map(shells, Id()), AsRow());
  }

  ghost predicate IsManaged(sessions: seq<Session>, listing: Listing, ws: Workspace, e: Entry) {
    match e
    case SessionRow(id) => HasRow(sessions, ws, id, true)
    case PaneRow(pane) => Listed(pane, Some(ws)) in listing && !Claims(sessions, pane)
  }

  lemma ManagedEntriesAre(sessions: seq<Session>, listing: Listing, ws: Workspace)
    ensures forall e :: e in ManagedEntries(sessions, listing, ws) <==> IsManaged(sessions, listing, ws, e)
  {
    var managed := ManagedOf(sessions, listing, ws);
    MapSortPermutes(managed, ByRank(), EntryOf());
    SameElements(ManagedEntries(sessions, listing, ws), Map(managed, EntryOf()));
    forall e
      ensures e in Map(managed, EntryOf()) <==> IsManaged(sessions, listing, ws, e)
    {
      EntryIsManaged(sessions, listing, ws, e);
    }
  }

  lemma EntryIsManaged(sessions: seq<Session>, listing: Listing, ws: Workspace, e: Entry)
    ensures e in Map(ManagedOf(sessions, listing, ws), EntryOf()) <==> IsManaged(sessions, listing, ws, e)
  {
    var attached, detached := AttachedRows(sessions, RanksOf(listing), ws), DetachedRows(sessions, listing, ws);
    MapConcat(attached, detached, EntryOf());
    MapHas(attached, EntryOf());
    MapHas(detached, EntryOf());
    AttachedAre(sessions, RanksOf(listing), ws);
    DetachedAre(sessions, listing, ws);
  }

  lemma AttachedAre(sessions: seq<Session>, ranks: Ranks, ws: Workspace)
    ensures forall m :: m in AttachedRows(sessions, ranks, ws) ==> m.entry.SessionRow? && HasRow(sessions, ws, m.entry.id, true)
    ensures forall id :: HasRow(sessions, ws, id, true) ==>
              exists m :: m in AttachedRows(sessions, ranks, ws) && m.entry == Entry.SessionRow(id)
  {
    var attached := Filter(SessionsOf(sessions, ws), HasPane());
    FilterElements(sessions, InWorkspace(ws));
    FilterElements(SessionsOf(sessions, ws), HasPane());
    MapHas(attached, Attached(ranks));
    forall id | HasRow(sessions, ws, id, true)
      ensures exists m :: m in AttachedRows(sessions, ranks, ws) && m.entry == Entry.SessionRow(id)
    {
      var s :| s in sessions && s.workspace == ws && s.id == id && s.pane.Some?;
      assert s in attached;
      assert Attached(ranks)(s) in AttachedRows(sessions, ranks, ws);
    }
  }

  lemma UnclaimedAre(sessions: seq<Session>, listing: Listing, ws: Workspace)
    ensures forall pane :: pane in Unclaimed(listing, sessions, ws) <==>
              Listed(pane, Some(ws)) in listing && !Claims(sessions, pane)
  {
    FilterElements(listing, Offered(sessions, ws));
    MapHas(Filter(listing, Offered(sessions, ws)), PaneOf());
    forall pane | Listed(pane, Some(ws)) in listing && !Claims(sessions, pane)
      ensures pane in Unclaimed(listing, sessions, ws)
    {
      assert Listed(pane, Some(ws)) in Filter(listing, Offered(sessions, ws));
      assert PaneOf()(Listed(pane, Some(ws))) == pane;
    }
  }

  lemma DetachedAre(sessions: seq<Session>, listing: Listing, ws: Workspace)
    ensures forall m :: m in DetachedRows(sessions, listing, ws) ==>
              m.entry.PaneRow? && Listed(m.entry.pane, Some(ws)) in listing && !Claims(sessions, m.entry.pane)
    ensures forall pane :: Listed(pane, Some(ws)) in listing && !Claims(sessions, pane) ==>
              exists m :: m in DetachedRows(sessions, listing, ws) && m.entry == Entry.PaneRow(pane)
  {
    var ranks := RanksOf(listing);
    UnclaimedAre(sessions, listing, ws);
    MapHas(Unclaimed(listing, sessions, ws), Detached(ranks));
    forall pane | Listed(pane, Some(ws)) in listing && !Claims(sessions, pane)
      ensures exists m :: m in DetachedRows(sessions, listing, ws) && m.entry == Entry.PaneRow(pane)
    {
      assert Detached(ranks)(pane) in DetachedRows(sessions, listing, ws);
    }
  }

  lemma AttachedEntriesDiffer(own: seq<Session>, ranks: Ranks)
    requires DistinctIds(own)
    ensures Distinct(Map(Map(own, Attached(ranks)), EntryOf()))
  {
  }

  lemma DetachedEntriesDiffer(panes: seq<string>, ranks: Ranks)
    requires Distinct(panes)
    ensures Distinct(Map(Map(panes, Detached(ranks)), EntryOf()))
  {
  }

  lemma {:induction false} FilterKeepsDistinct<T>(s: seq<T>, p: T -> bool)
    requires Distinct(s)
    ensures Distinct(Filter(s, p))
  {
    if s != [] {
      FilterKeepsDistinct(s[1..], p);
      FilterElements(s[1..], p);
      assert s[0] !in s[1..];
    }
  }

  lemma UnclaimedAreDistinct(sessions: seq<Session>, listing: Listing, ws: Workspace)
    requires WellListed(listing)
    ensures Distinct(Unclaimed(listing, sessions, ws))
  {
    var offered := Filter(listing, Offered(sessions, ws));
    FilterKeepsDistinct(listing, Offered(sessions, ws));
    FilterElements(listing, Offered(sessions, ws));
    forall i, j | 0 <= i < j < |offered|
      ensures offered[i].pane != offered[j].pane
    {
      assert offered[i] in listing && offered[j] in listing;
      var k := IndexIn(listing, offered[i]);
      var l := IndexIn(listing, offered[j]);
    }
  }

  lemma ManagedEntriesDiffer(sessions: seq<Session>, listing: Listing, ws: Workspace)
    requires DistinctIds(sessions) && WellListed(listing)
    ensures Distinct(ManagedEntries(sessions, listing, ws))
  {
    var ranks, managed := RanksOf(listing), ManagedOf(sessions, listing, ws);
    var attached, detached := AttachedRows(sessions, ranks, ws), DetachedRows(sessions, listing, ws);
    SessionsAreDistinct(sessions, ws);
    FilterKeepsDistinctIds(SessionsOf(sessions, ws), HasPane());
    AttachedEntriesDiffer(Filter(SessionsOf(sessions, ws), HasPane()), ranks);
    UnclaimedAreDistinct(sessions, listing, ws);
    DetachedEntriesDiffer(Unclaimed(listing, sessions, ws), ranks);
    AttachedAre(sessions, ranks, ws);
    DetachedAre(sessions, listing, ws);
    MapHas(attached, EntryOf());
    MapHas(detached, EntryOf());
    ConcatDistinct(Map(attached, EntryOf()), Map(detached, EntryOf()));
    MapConcat(attached, detached, EntryOf());
    MapSortPermutes(managed, ByRank(), EntryOf());
    DistinctFromMultiset(Map(managed, EntryOf()), ManagedEntries(sessions, listing, ws));
  }

  /** No row of a workspace is listed twice. */
  lemma RowsDifferFromEachOther(sessions: seq<Session>, listing: Listing, ws: Workspace, always: bool)
    requires DistinctIds(sessions) && WellListed(listing)
    ensures Distinct(RowsFor(sessions, listing, ws, always))
  {
    var shells, managed := ShellRows(sessions, ws), ManagedEntries(sessions, listing, ws);
    RowsInParts(sessions, listing, ws, always);
    ManagedEntriesDiffer(sessions, listing, ws);
    ShellRowsDiffer(sessions, ws);
    assert [] + managed == managed;
    forall e | e in shells
      ensures e !in managed
    {
      ShellRowsAre(sessions, ws);
      ManagedEntriesAre(sessions, listing, ws);
      if e in managed {
        OneSessionPerId(sessions, ws, e.id);
      }
    }
    ConcatDistinct(shells, managed);
  }

  lemma ShellRowsDiffer(sessions: seq<Session>, ws: Workspace)
    requires DistinctIds(sessions)
    ensures Distinct(ShellRows(sessions, ws))
  {
    SessionsAreDistinct(sessions, ws);
    FilterKeepsDistinctIds(SessionsOf(sessions, ws), IsShell());
    MapIdsDistinct(Filter(SessionsOf(sessions, ws), IsShell()));
  }

  lemma OneSessionPerId(sessions: seq<Session>, ws: Workspace, id: nat)
    requires DistinctIds(sessions)
    ensures !(HasRow(sessions, ws, id, true) && HasRow(sessions, ws, id, false))
  {
    if HasRow(sessions, ws, id, true) && HasRow(sessions, ws, id, false) {
      var s :| s in sessions && s.workspace == ws && s.id == id && s.pane.Some? == true;
      var t :| t in sessions && t.workspace == ws && t.id == id && t.pane.Some? == false;
      var i := IndexIn(sessions, s);
      var j := IndexIn(sessions, t);
    }
  }

  // ---- The rows after a close ----

  lemma PutInPlace<T>(front: seq<T>, lower: seq<T>, x: T, y: T, upper: seq<T>)
    requires Distinct(front + (lower + [x] + upper))
    ensures var rows := front + (lower + [x] + upper);
            x in rows && front + (lower + [y] + upper) == rows[IndexOf(rows, x) := y]
  {
    var rows, k := front + (lower + [x] + upper), |front| + |lower|;
    assert rows[k] == x;
    SamePlace(rows, IndexOf(rows, x), k);
  }

  /** A pane that returns stands where its session's row stood. */
  lemma PaneTakesThePlace(sessions: seq<Session>, listing: Listing, idx: nat, always: bool)
    requires DistinctIds(sessions) && WellListed(listing) && idx < |sessions| && PaneReturns(sessions, listing, idx)
    ensures var x := sessions[idx];
            var rows := RowsFor(sessions, listing, x.workspace, always);
            Entry.SessionRow(x.id) in rows
            && RowsFor(RemoveAt(sessions, idx), listing, x.workspace, always)
               == rows[IndexOf(rows, Entry.SessionRow(x.id)) := Entry.PaneRow(x.pane.value)]
  {
    var x, left, ws, ranks := sessions[idx], RemoveAt(sessions, idx), sessions[idx].workspace, RanksOf(listing);
    RowsInParts(sessions, listing, ws, always);
    RowsInParts(left, listing, ws, always);
    SessionsBesideOne(sessions, idx, IsShell());
    var lower, upper := ReturnsInPlace(sessions, listing, idx);
    MapAround(lower, Attached(ranks)(x), upper, EntryOf());
    MapAround(lower, Detached(ranks)(x.pane.value), upper, EntryOf());
    var shells := ShellRows(sessions, ws);
    var front := if |shells| + |lower| + |upper| + 1 >= (if always then 1 else 2) then shells else [];
    RowsDifferFromEachOther(sessions, listing, ws, always);
    PutInPlace(front, Map(lower, EntryOf()), Entry.SessionRow(x.id), Entry.PaneRow(x.pane.value), Map(upper, EntryOf()));
  }

  lemma MapAround<T, U>(lower: seq<T>, x: T, upper: seq<T>, f: T -> U)
    ensures Map(lower + [x] + upper, f) == Map(lower, f) + [f(x)] + Map(upper, f)
  {
    MapConcat(lower + [x], upper, f);
    MapConcat(lower, [x], f);
    assert Map([x], f) == [f(x)];
  }

  function NotRow(id: nat): Entry -> bool { (e: Entry) => e != Entry.SessionRow(id) }

  function NotManaged(id: nat): Managed -> bool { (m: Managed) => m.entry != Entry.SessionRow(id) }

  lemma ShellRowsLeft(sessions: seq<Session>, idx: nat)
    requires DistinctIds(sessions) && idx < |sessions|
    ensures var x := sessions[idx];
            ShellRows(RemoveAt(sessions, idx), x.workspace) == Filter(ShellRows(sessions, x.workspace), NotRow(x.id))
  {
    var x, own := sessions[idx], SessionsOf(sessions, sessions[idx].workspace);
    var shells := Filter(own, IsShell());
    SessionsLeft(sessions, idx);
    FiltersCommute(own, IsShell(), OtherThan(x.id));
    FilterMap(Map(shells, Id()), AsRow(), NotRow(x.id), id => id != x.id);
    FilterMap(shells, Id(), id => id != x.id, OtherThan(x.id));
  }

  lemma ManagedLeft(sessions: seq<Session>, listing: Listing, idx: nat)
    requires DistinctIds(sessions) && idx < |sessions| && !PaneReturns(sessions, listing, idx)
    ensures var x := sessions[idx];
            ManagedEntries(RemoveAt(sessions, idx), listing, x.workspace)
            == Filter(ManagedEntries(sessions, listing, x.workspace), NotRow(x.id))
  {
    var x, left, ws := sessions[idx], RemoveAt(sessions, idx), sessions[idx].workspace;
    var managed, q := ManagedOf(sessions, listing, ws), NotManaged(x.id);
    AttachedLeft(sessions, RanksOf(listing), idx, q);
    DetachedLeft(sessions, listing, idx, q);
    FilterConcat(AttachedRows(sessions, RanksOf(listing), ws), DetachedRows(sessions, listing, ws), q);
    FilterConcat(AttachedRows(left, RanksOf(listing), ws), DetachedRows(left, listing, ws), q);
    NoneOfItIsLeft(sessions, listing, idx);
    FilterAll(ManagedOf(left, listing, ws), q);
    SortFilter(managed, ByRank(), q);
    FilterMap(Sort(managed, ByRank()), EntryOf(), NotRow(x.id), q);
  }

  lemma NoneOfItIsLeft(sessions: seq<Session>, listing: Listing, idx: nat)
    requires DistinctIds(sessions) && idx < |sessions|
    ensures forall m :: m in ManagedOf(RemoveAt(sessions, idx), listing, sessions[idx].workspace) ==> NotManaged(sessions[idx].id)(m)
  {
    var x, left, ws := sessions[idx], RemoveAt(sessions, idx), sessions[idx].workspace;
    AttachedAre(left, RanksOf(listing), ws);
    DetachedAre(left, listing, ws);
    forall s | s in left
      ensures s.id != x.id
    {
      var i := IndexIn(left, s);
      assert sessions[if i < idx then i else i + 1] == s;
    }
  }

  lemma FilterDropsElement<T>(s: seq<T>, x: T, keep: T -> bool)
    requires Distinct(s) && x in s && forall y :: y in s ==> (keep(y) <==> y != x)
    ensures Filter(s, keep) == RemoveAt(s, IndexOf(s, x))
  {
    var i := IndexOf(s, x);
    forall k | 0 <= k < |s|
      ensures keep(s[k]) <==> k != i
    {
      assert s[k] in s;
    }
    FilterDropsOne(s, i, keep);
  }

  /** Otherwise its row is gone and the rest stay, unless a lone shell is left
      below the threshold. */
  lemma RowIsGone(sessions: seq<Session>, listing: Listing, idx: nat, always: bool)
    requires DistinctIds(sessions) && WellListed(listing) && idx < |sessions| && !PaneReturns(sessions, listing, idx)
    requires Entry.SessionRow(sessions[idx].id) in RowsFor(sessions, listing, sessions[idx].workspace, always)
    ensures var x := sessions[idx];
            var rows := RowsFor(sessions, listing, x.workspace, always);
            RowsFor(RemoveAt(sessions, idx), listing, x.workspace, always)
            == if LeavesLoneShell(sessions, listing, idx, always) then [] else RemoveAt(rows, IndexOf(rows, Entry.SessionRow(x.id)))
  {
    var x, left, ws := sessions[idx], RemoveAt(sessions, idx), sessions[idx].workspace;
    var rows := RowsFor(sessions, listing, ws, always);
    RowsDifferFromEachOther(sessions, listing, ws, always);
    FilterDropsElement(rows, Entry.SessionRow(x.id), NotRow(x.id));
    RowsInParts(sessions, listing, ws, always);
    RowsInParts(left, listing, ws, always);
    ShellRowsLeft(sessions, idx);
    ManagedLeft(sessions, listing, idx);
    FilterConcat(ShellRows(sessions, ws), ManagedEntries(sessions, listing, ws), NotRow(x.id));
    LoneShellExactlyWhen(sessions, listing, idx, always);
  }

  lemma LoneShellExactlyWhen(sessions: seq<Session>, listing: Listing, idx: nat, always: bool)
    requires DistinctIds(sessions) && idx < |sessions|
    ensures var left, ws := RemoveAt(sessions, idx), sessions[idx].workspace;
            LeavesLoneShell(sessions, listing, idx, always)
            <==> !always && |ShellRows(left, ws)| == 1 && ManagedEntries(left, listing, ws) == []
  {
    var left, ws := RemoveAt(sessions, idx), sessions[idx].workspace;
    var own := SessionsOf(left, ws);
    SortPermutes(ManagedOf(left, listing, ws), ByRank());
    SameLength(Sort(ManagedOf(left, listing, ws), ByRank()), ManagedOf(left, listing, ws));
    ShellsAndAttached(own);
    if |own| == 1 {
      assert own == [own[0]];
      FilterOne(own[0], IsShell());
    }
  }

  lemma {:induction false} ShellsAndAttached(s: seq<Session>)
    ensures |Filter(s, IsShell())| + |Filter(s, HasPane())| == |s|
  {
    if s != [] {
      ShellsAndAttached(s[1..]);
    }
  }

  /** The rows of a workspace once one of its listed tabs has closed. */
  lemma RowsAfterAClose(sessions: seq<Session>, listing: Listing, idx: nat, always: bool)
    requires DistinctIds(sessions) && WellListed(listing) && idx < |sessions|
    requires Entry.SessionRow(sessions[idx].id) in RowsFor(sessions, listing, sessions[idx].workspace, always)
    ensures var x := sessions[idx];
            var rows := RowsFor(sessions, listing, x.workspace, always);
            var k := IndexOf(rows, Entry.SessionRow(x.id));
            Distinct(rows)
            && RowsFor(RemoveAt(sessions, idx), listing, x.workspace, always)
               == if PaneReturns(sessions, listing, idx) then rows[k := Entry.PaneRow(x.pane.value)]
                  else if LeavesLoneShell(sessions, listing, idx, always) then []
                  else RemoveAt(rows, k)
  {
    RowsDifferFromEachOther(sessions, listing, sessions[idx].workspace, always);
    if PaneReturns(sessions, listing, idx) {
      PaneTakesThePlace(sessions, listing, idx, always);
    } else {
      RowIsGone(sessions, listing, idx, always);
    }
  }

  // ---- A shell opened after the close ----

  /** Rows depend on the workspace's own sessions and on the panes held anywhere. */
  lemma RowsSame(a: seq<Session>, b: seq<Session>, listing: Listing, ws: Workspace, always: bool)
    requires SessionsOf(a, ws) == SessionsOf(b, ws) && forall pane :: Claims(a, pane) <==> Claims(b, pane)
    ensures RowsFor(a, listing, ws, always) == RowsFor(b, listing, ws, always)
    ensures Unclaimed(listing, a, ws) == Unclaimed(listing, b, ws)
  {
    FilterSame(listing, Offered(a, ws), Offered(b, ws));
  }

  lemma OneShellMore(left: seq<Session>, x: Session, ws: Workspace)
    requires x.pane.None?
    ensures SessionsOf(left + [x], ws) == SessionsOf(left, ws) + if x.workspace == ws then [x] else []
    ensures forall pane :: Claims(left + [x], pane) <==> Claims(left, pane)
  {
    FilterConcat(left, [x], InWorkspace(ws));
    FilterOne(x, InWorkspace(ws));
    forall pane
      ensures Claims(left + [x], pane) <==> Claims(left, pane)
    {
      if Claims(left, pane) {
        var i :| 0 <= i < |left| && left[i].pane == Some(pane);
        assert (left + [x])[i].pane == Some(pane);
      }
    }
  }

  /** A shell alone in its workspace is listed above the panes there, and not at
      all below the threshold. */
  lemma RowsWithAShell(left: seq<Session>, x: Session, listing: Listing, always: bool)
    requires x.pane.None? && SessionsOf(left, x.workspace) == []
    ensures var panes := Unclaimed(listing, left, x.workspace);
            var rows := RowsFor(left, listing, x.workspace, always);
            && |rows| == |panes|
            && RowsFor(left + [x], listing, x.workspace, always)
               == if !always && panes == [] then [] else [Entry.SessionRow(x.id)] + rows
  {
    var ws := x.workspace;
    OneShellMore(left, x, ws);
    PartsWithAShell(left, left + [x], x, listing);
    RowsInParts(left, listing, ws, always);
    RowsInParts(left + [x], listing, ws, always);
    AroundTheThreshold(ManagedEntries(left, listing, ws), Entry.SessionRow(x.id), always);
  }

  lemma AroundTheThreshold(managed: seq<Entry>, e: Entry, always: bool)
    ensures [] + managed == managed
    ensures (if 1 + |managed| >= (if always then 1 else 2) then [e] else []) + managed
         == if !always && |managed| == 0 then [] else [e] + managed
  {
  }

  lemma PartsWithAShell(left: seq<Session>, after: seq<Session>, x: Session, listing: Listing)
    requires x.pane.None? && SessionsOf(left, x.workspace) == [] && SessionsOf(after, x.workspace) == [] + [x]
    requires forall pane :: Claims(after, pane) <==> Claims(left, pane)
    ensures var ws := x.workspace;
            && ShellRows(left, ws) == [] && ShellRows(after, ws) == [Entry.SessionRow(x.id)]
            && ManagedEntries(after, listing, ws) == ManagedEntries(left, listing, ws)
            && |ManagedEntries(left, listing, ws)| == |Unclaimed(listing, left, ws)|
  {
    var ws := x.workspace;
    FilterSame(listing, Offered(left, ws), Offered(after, ws));
    assert [] + [x] == [x];
    FilterOne(x, IsShell());
    FilterOne(x, HasPane());
    assert ManagedOf(after, listing, ws) == ManagedOf(left, listing, ws);
    SortPermutes(ManagedOf(left, listing, ws), ByRank());
    SameLength(Sort(ManagedOf(left, listing, ws), ByRank()), ManagedOf(left, listing, ws));
  }
}
