/** The order a workspace's sessions are drawn in, as the rings compute it and as
    the sidebar's rows show it. */
module DisplayOrder {
  import opened Options
  import opened Seqs
  import opened Sessions
  import opened StableSort
  import opened Walks

  /** The rank of a pane its multiplexer does not list. */
  const UNLISTED: nat := 0xffff_ffff_ffff_ffff

  /** Where a multiplexer lists a pane, if it does. */
  type Ranks = string -> Option<nat>

  function RankOf(ranks: Ranks, pane: string): nat {
    match ranks(pane) case None => UNLISTED case Some(at) => at
  }

  datatype DisplayKey = DisplayKey(block: nat, at: nat)

  function KeyOf(ranks: Ranks, s: Session): DisplayKey {
    match s.pane
    case Some(pane) => DisplayKey(1, RankOf(ranks, pane))
    case None => DisplayKey(0, 0)
  }

  function Before(ranks: Ranks): (Session, Session) -> bool {
    (a: Session, b: Session) =>
      var k, l := KeyOf(ranks, a), KeyOf(ranks, b);
      k.block < l.block || (k.block == l.block && k.at <= l.at)
  }

  /** The same order on list positions. */
  function SlotBefore(sessions: seq<Session>, ranks: Ranks): (nat, nat) -> bool {
    (i: nat, j: nat) => i < |sessions| && j < |sessions| && Before(ranks)(sessions[i], sessions[j])
  }

  /** The positions of a workspace's sessions, in display order. */
  method WorkspaceDisplayIndices(sessions: seq<Session>, ranks: Ranks, ws: Workspace) returns (indices: Slots)
    ensures indices == DisplayIndices(sessions, ranks, ws)
  {
    indices := [];
    for i := 0 to |sessions|
      invariant indices == Where(sessions[..i], InWorkspace(ws))
    {
      assert sessions[..i + 1][..i] == sessions[..i];
      if sessions[i].workspace == ws {
        indices := indices + [i];
      }
    }
    assert sessions[..|sessions|] == sessions;
    indices := Sort(indices, SlotBefore(sessions, ranks));
  }

  function DisplayIndices(sessions: seq<Session>, ranks: Ranks, ws: Workspace): Slots {
    Sort(Where(sessions, InWorkspace(ws)), SlotBefore(sessions, ranks))
  }

  // ---- The sidebar's rows ----

  datatype Entry = SessionRow(id: nat) | PaneRow(pane: string)

  datatype Managed = Managed(at: nat, entry: Entry)

  function ByRank(): (Managed, Managed) -> bool {
    (a: Managed, b: Managed) => a.at <= b.at
  }

  function IsSession(): Managed -> bool {
    (m: Managed) => m.entry.SessionRow?
  }

  function Attached(ranks: Ranks): Session -> Managed {
    (s: Session) => Managed(if s.pane.Some? then RankOf(ranks, s.pane.value) else 0, SessionRow(s.id))
  }

  function Detached(ranks: Ranks): string -> Managed {
    (pane: string) => Managed(RankOf(ranks, pane), PaneRow(pane))
  }

  function IsShell(): Session -> bool { (s: Session) => s.pane.None? }

  function HasPane(): Session -> bool { (s: Session) => s.pane.Some? }

  function Id(): Session -> nat { (s: Session) => s.id }

  function EntryOf(): Managed -> Entry { (m: Managed) => m.entry }

  function AsRow(): nat -> Entry { (id: nat) => SessionRow(id) }

  function SessionIds(rows: seq<Entry>): seq<nat> {
    if rows == [] then []
    else (if rows[0].SessionRow? then [rows[0].id] else []) + SessionIds(rows[1..])
  }

  /** The rows of one workspace: its shells once there are enough rows to list,
      then every managed row by rank. */
  function WorkspaceEntries(shells: seq<nat>, managed: seq<Managed>, always: bool): seq<Entry> {
    (if |shells| + |managed| >= (if always then 1 else 2) then Map(shells, AsRow()) else [])
    + Map(Sort(managed, ByRank()), EntryOf())
  }

  /** The rows the sidebar lists for `ws`, given the panes no session holds. */
  method ListedWorkspaceRows(sessions: seq<Session>, ranks: Ranks, panes: seq<string>, ws: Workspace, always: bool)
    returns (rows: seq<Entry>)
    ensures rows == ListedRows(sessions, ranks, panes, ws, always)
  {
    var shells, managed := OwnRows(sessions, ranks, ws);
    managed := AddPanes(managed, ranks, panes);
    rows := WorkspaceEntries(shells, managed, always);
  }

  method OwnRows(sessions: seq<Session>, ranks: Ranks, ws: Workspace) returns (shells: seq<nat>, managed: seq<Managed>)
    ensures shells == Map(Filter(Filter(sessions, InWorkspace(ws)), IsShell()), Id())
    ensures managed == Map(Filter(Filter(sessions, InWorkspace(ws)), HasPane()), Attached(ranks))
  {
    shells, managed := [], [];
    for i := 0 to |sessions|
      invariant shells == Map(Filter(Filter(sessions[..i], InWorkspace(ws)), IsShell()), Id())
      invariant managed == Map(Filter(Filter(sessions[..i], InWorkspace(ws)), HasPane()), Attached(ranks))
    {
      NextSession(sessions, ranks, ws, i);
      if sessions[i].workspace == ws {
        match sessions[i].pane
        case Some(pane) => managed := managed + [Managed(RankOf(ranks, pane), SessionRow(sessions[i].id))];
        case None => shells := shells + [sessions[i].id];
      }
    }
    assert sessions[..|sessions|] == sessions;
  }

  method AddPanes(attached: seq<Managed>, ranks: Ranks, panes: seq<string>) returns (managed: seq<Managed>)
    ensures managed == attached + Map(panes, Detached(ranks))
  {
    managed := attached;
    for i := 0 to |panes|
      invariant managed == attached + Map(panes[..i], Detached(ranks))
    {
      assert panes[..i + 1] == panes[..i] + [panes[i]];
      MapConcat(panes[..i], [panes[i]], Detached(ranks));
      managed := managed + [Managed(RankOf(ranks, panes[i]), PaneRow(panes[i]))];
    }
    assert panes[..|panes|] == panes;
  }

  function ManagedRows(own: seq<Session>, ranks: Ranks, panes: seq<string>): seq<Managed> {
    Map(Filter(own, HasPane()), Attached(ranks)) + Map(panes, Detached(ranks))
  }

  function ListedRows(sessions: seq<Session>, ranks: Ranks, panes: seq<string>, ws: Workspace, always: bool): seq<Entry> {
    var own := Filter(sessions, InWorkspace(ws));
    WorkspaceEntries(Map(Filter(own, IsShell()), Id()), ManagedRows(own, ranks, panes), always)
  }

  lemma NextSession(sessions: seq<Session>, ranks: Ranks, ws: Workspace, i: nat)
    requires i < |sessions|
    ensures var before, after := Filter(sessions[..i], InWorkspace(ws)), Filter(sessions[..i + 1], InWorkspace(ws));
            var x := if sessions[i].workspace == ws then [sessions[i]] else [];
            && Map(Filter(after, IsShell()), Id()) == Map(Filter(before, IsShell()), Id()) + Map(Filter(x, IsShell()), Id())
            && Map(Filter(after, HasPane()), Attached(ranks))
               == Map(Filter(before, HasPane()), Attached(ranks)) + Map(Filter(x, HasPane()), Attached(ranks))
  {
    var p := InWorkspace(ws);
    var x := if sessions[i].workspace == ws then [sessions[i]] else [];
    assert sessions[..i + 1] == sessions[..i] + [sessions[i]];
    FilterConcat(sessions[..i], [sessions[i]], p);
    assert Filter([sessions[i]], p) == x;
    FilterConcat(Filter(sessions[..i], p), x, IsShell());
    FilterConcat(Filter(sessions[..i], p), x, HasPane());
    MapConcat(Filter(Filter(sessions[..i], p), IsShell()), Filter(x, IsShell()), Id());
    MapConcat(Filter(Filter(sessions[..i], p), HasPane()), Filter(x, HasPane()), Attached(ranks));
  }

  // ---- Sorting, mapping, filtering ----

  lemma MapConcat<T, U>(s: seq<T>, t: seq<T>, f: T -> U)
    ensures Map(s + t, f) == Map(s, f) + Map(t, f)
  {}

  lemma {:induction false} InsertMap<T, U>(x: T, s: seq<T>, f: T -> U, le: (T, T) -> bool, below: (U, U) -> bool)
    requires forall y :: y in s ==> (le(x, y) <==> below(f(x), f(y)))
    ensures Insert(f(x), Map(s, f), below) == Map(Insert(x, s, le), f)
  {
    if s != [] && !le(x, s[0]) {
      InsertMap(x, s[1..], f, le, below);
      MapConcat([s[0]], Insert(x, s[1..], le), f);
      assert Map(s, f)[1..] == Map(s[1..], f);
    } else {
      MapConcat([x], s, f);
    }
  }

  /** Sorting commutes with a renaming that respects the order. */
  lemma {:induction false} SortMap<T(!new), U>(s: seq<T>, f: T -> U, le: (T, T) -> bool, below: (U, U) -> bool)
    requires forall x, y :: x in s && y in s ==> (le(x, y) <==> below(f(x), f(y)))
    ensures Sort(Map(s, f), below) == Map(Sort(s, le), f)
  {
    if s != [] {
      SortMap(s[1..], f, le, below);
      SortPermutes(s[1..], le);
      forall y | y in Sort(s[1..], le)
        ensures y in s
      {
        assert y in multiset(Sort(s[1..], le));
        assert y in s[1..];
      }
      InsertMap(s[0], Sort(s[1..], le), f, le, below);
      assert Map(s, f)[1..] == Map(s[1..], f);
    }
  }

  lemma {:induction false} SortOfEquals<T>(s: seq<T>, le: (T, T) -> bool)
    requires forall x, y :: x in s && y in s ==> le(x, y)
    ensures Sort(s, le) == s
  {
    if s != [] {
      assert forall x :: x in s[1..] ==> x in s;
      SortOfEquals(s[1..], le);
    }
  }

  /** A sorted list whose `p` elements all sort strictly first falls in two. */
  lemma {:induction false} SortedSplits<T>(s: seq<T>, le: (T, T) -> bool, p: T -> bool, q: T -> bool)
    requires Sorted(s, le) && (forall x :: x in s ==> (q(x) <==> !p(x)))
    requires forall x, y :: x in s && y in s && p(x) && q(y) ==> !le(y, x)
    ensures s == Filter(s, p) + Filter(s, q)
  {
    if s == [] {
    } else if p(s[0]) {
      assert forall x :: x in s[1..] ==> x in s;
      SortedSplits(s[1..], le, p, q);
      FirstJoins(s[0], s[1..], p, q);
      assert s == [s[0]] + s[1..];
    } else {
      forall x | x in s
        ensures !p(x)
      {
        var k := IndexIn(s, x);
        assert k > 0 ==> le(s[0], s[k]);
      }
      FilterNone(s, p);
      FilterAll(s, q);
    }
  }

  lemma FirstJoins<T>(x: T, rest: seq<T>, p: T -> bool, q: T -> bool)
    requires p(x) && !q(x) && rest == Filter(rest, p) + Filter(rest, q)
    ensures [x] + rest == Filter([x] + rest, p) + Filter([x] + rest, q)
  {
    assert ([x] + rest)[1..] == rest;
    Associate([x], Filter(rest, p), Filter(rest, q));
  }

  lemma {:induction false} InsertGather(i: nat, s: Slots, sessions: seq<Session>, le: (Session, Session) -> bool, slotLe: (nat, nat) -> bool)
    requires i < |sessions| && Within(s, |sessions|)
    requires forall k :: 0 <= k < |s| ==> (slotLe(i, s[k]) <==> le(sessions[i], sessions[s[k]]))
    ensures Within(Insert(i, s, slotLe), |sessions|)
    ensures Gather(sessions, Insert(i, s, slotLe)) == Insert(sessions[i], Gather(sessions, s), le)
  {
    if s != [] && !slotLe(i, s[0]) {
      InsertGather(i, s[1..], sessions, le, slotLe);
      assert Gather(sessions, s)[1..] == Gather(sessions, s[1..]);
    }
  }

  /** Sorting positions by what stands there sorts what stands there. */
  lemma {:induction false} SortGather(s: Slots, sessions: seq<Session>, ranks: Ranks)
    requires Within(s, |sessions|)
    ensures Within(Sort(s, SlotBefore(sessions, ranks)), |sessions|)
    ensures Gather(sessions, Sort(s, SlotBefore(sessions, ranks))) == Sort(Gather(sessions, s), Before(ranks))
  {
    if s != [] {
      SortGather(s[1..], sessions, ranks);
      InsertGather(s[0], Sort(s[1..], SlotBefore(sessions, ranks)), sessions, Before(ranks), SlotBefore(sessions, ranks));
      assert Gather(sessions, s)[1..] == Gather(sessions, s[1..]);
    }
  }

  // ---- The two orders are one ----

  /** A workspace's sessions as the rings step through them. */
  ghost function DisplayedIds(sessions: seq<Session>, ranks: Ranks, ws: Workspace): seq<nat>
  {
    Map(Sort(Filter(sessions, InWorkspace(ws)), Before(ranks)), Id())
  }

  lemma DisplayIndicesShowDisplayedIds(sessions: seq<Session>, ranks: Ranks, ws: Workspace)
    ensures var indices := DisplayIndices(sessions, ranks, ws);
            Within(indices, |sessions|) && Map(Gather(sessions, indices), Id()) == DisplayedIds(sessions, ranks, ws)
  {
    GatherWhere(sessions, InWorkspace(ws));
    SortGather(Where(sessions, InWorkspace(ws)), sessions, ranks);
  }

  /** Display order is the shells as listed, then the attached sessions by rank. */
  lemma DisplayOrderInBlocks(own: seq<Session>, ranks: Ranks)
    ensures Sort(own, Before(ranks)) == Filter(own, IsShell()) + Sort(Filter(own, HasPane()), Before(ranks))
  {
    var sorted := Sort(own, Before(ranks));
    SortSorted(own, Before(ranks));
    SortedSplits(sorted, Before(ranks), IsShell(), HasPane());
    SortFilter(own, Before(ranks), IsShell());
    SortFilter(own, Before(ranks), HasPane());
    FilterElements(own, IsShell());
    SortOfEquals(Filter(own, IsShell()), Before(ranks));
  }

  lemma {:induction false} SessionIdsOfRows(ids: seq<nat>)
    ensures SessionIds(Map(ids, AsRow())) == ids
  {
    if ids != [] {
      SessionIdsOfRows(ids[1..]);
      assert Map(ids, AsRow())[1..] == Map(ids[1..], AsRow());
    }
  }

  lemma {:induction false} SessionIdsConcat(a: seq<Entry>, b: seq<Entry>)
    ensures SessionIds(a + b) == SessionIds(a) + SessionIds(b)
  {
    if a == [] {
      assert a + b == b;
    } else {
      assert (a + b)[1..] == a[1..] + b;
      SessionIdsConcat(a[1..], b);
      Associate(if a[0].SessionRow? then [a[0].id] else [], SessionIds(a[1..]), SessionIds(b));
    }
  }

  lemma {:induction false} SessionIdsOfManaged(m: seq<Managed>)
    ensures SessionIds(Map(m, EntryOf())) == SessionIds(Map(Filter(m, IsSession()), EntryOf()))
  {
    if m != [] {
      SessionIdsOfManaged(m[1..]);
      assert Map(m, EntryOf())[1..] == Map(m[1..], EntryOf());
      FilterConcat([m[0]], m[1..], IsSession());
      if IsSession()(m[0]) {
        MapConcat([m[0]], Filter(m[1..], IsSession()), EntryOf());
        assert Map(Filter(m, IsSession()), EntryOf())[1..] == Map(Filter(m[1..], IsSession()), EntryOf());
      } else {
        assert Filter(m, IsSession()) == Filter(m[1..], IsSession());
      }
    }
  }

  lemma {:induction false} FilterAll<T>(s: seq<T>, p: T -> bool)
    requires forall x :: x in s ==> p(x)
    ensures Filter(s, p) == s
  {
    if s != [] {
      assert forall x :: x in s[1..] ==> x in s;
      FilterAll(s[1..], p);
    }
  }

  lemma {:induction false} FilterNone<T>(s: seq<T>, p: T -> bool)
    requires forall x :: x in s ==> !p(x)
    ensures Filter(s, p) == []
  {
    if s != [] {
      assert forall x :: x in s[1..] ==> x in s;
      FilterNone(s[1..], p);
    }
  }

  lemma OnlyAttachedAreSessions(own: seq<Session>, ranks: Ranks, panes: seq<string>)
    ensures Filter(ManagedRows(own, ranks, panes), IsSession()) == Map(Filter(own, HasPane()), Attached(ranks))
  {
    var attached, detached := Map(Filter(own, HasPane()), Attached(ranks)), Map(panes, Detached(ranks));
    FilterConcat(attached, detached, IsSession());
    FilterAll(attached, IsSession());
    FilterNone(detached, IsSession());
  }

  lemma AttachedByRank(own: seq<Session>, ranks: Ranks)
    ensures Sort(Map(Filter(own, HasPane()), Attached(ranks)), ByRank())
         == Map(Sort(Filter(own, HasPane()), Before(ranks)), Attached(ranks))
  {
    FilterElements(own, HasPane());
    SortMap(Filter(own, HasPane()), Attached(ranks), Before(ranks), ByRank());
  }

  /** The managed rows, panes dropped, are the attached sessions by rank. */
  lemma ManagedSessionsByRank(own: seq<Session>, ranks: Ranks, panes: seq<string>)
    ensures SessionIds(Map(Sort(ManagedRows(own, ranks, panes), ByRank()), EntryOf()))
         == Map(Sort(Filter(own, HasPane()), Before(ranks)), Id())
  {
    var managed := ManagedRows(own, ranks, panes);
    SessionIdsOfManaged(Sort(managed, ByRank()));
    SortFilter(managed, ByRank(), IsSession());
    OnlyAttachedAreSessions(own, ranks, panes);
    AttachedByRank(own, ranks);
    AttachedIds(Sort(Filter(own, HasPane()), Before(ranks)), ranks);
  }

  lemma {:induction false} AttachedIds(s: seq<Session>, ranks: Ranks)
    ensures SessionIds(Map(Map(s, Attached(ranks)), EntryOf())) == Map(s, Id())
  {
    if s != [] {
      AttachedIds(s[1..], ranks);
      assert Map(Map(s, Attached(ranks)), EntryOf())[1..] == Map(Map(s[1..], Attached(ranks)), EntryOf());
    }
  }

  /** The sidebar's rows show a workspace's sessions in exactly the order the
      rings step through them, unlisted panes included, unless the workspace is
      a lone shell below the listing threshold, which shows no row at all. */
  lemma RowsFollowTheRings(sessions: seq<Session>, ranks: Ranks, panes: seq<string>, ws: Workspace, always: bool)
    ensures var own := Filter(sessions, InWorkspace(ws));
            SessionIds(ListedRows(sessions, ranks, panes, ws, always)) == DisplayedIds(sessions, ranks, ws)
            <==> !(!always && |Filter(own, IsShell())| == 1 && |ManagedRows(own, ranks, panes)| == 0)
  {
    var own := Filter(sessions, InWorkspace(ws));
    var shells, managed := Map(Filter(own, IsShell()), Id()), ManagedRows(own, ranks, panes);
    var below := Map(Sort(managed, ByRank()), EntryOf());
    DisplayOrderInBlocks(own, ranks);
    MapConcat(Filter(own, IsShell()), Sort(Filter(own, HasPane()), Before(ranks)), Id());
    ManagedSessionsByRank(own, ranks, panes);
    SessionIdsConcat(Map(shells, AsRow()), below);
    SessionIdsOfRows(shells);
    assert [] + below == below;
    assert DisplayedIds(sessions, ranks, ws) == shells + SessionIds(below);
  }
}
