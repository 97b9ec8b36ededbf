/** Whole runs of pastes and of the sweeps they queue, in any interleaving. */
module PasteRuns {
  import opened ClipboardImage
  import opened Digest
  import opened Seqs

  datatype Event =
    | Paste(png: seq<byte>, now: nat)
    | Sweep(inUse: string)

  ghost predicate Next(keep: nat, before: Listing, e: Event, after: Listing) {
    match e
    case Paste(png, now) => after == Stored(before, png, now)
    case Sweep(inUse) => Capped(before, keep, inUse, after)
  }

  /** The time of the latest paste; before any, just short of the start. */
  function Clock(events: seq<Event>, start: nat): int {
    if events == [] then start - 1
    else
      var last := events[|events| - 1];
      if last.Paste? then last.now else Clock(events[..|events| - 1], start)
  }

  /** The distinct names pasted so far, the most recently pasted first. */
  function Recency(events: seq<Event>): seq<string> {
    if events == [] then []
    else
      var last, earlier := events[|events| - 1], Recency(events[..|events| - 1]);
      if last.Paste? then MoveToFront(earlier, FileName(last.png)) else earlier
  }

  /** Pastes are at least `gap` ticks apart, and a sweep runs only for a path
      some earlier paste returned. How long it waited does not matter. */
  predicate Admits(earlier: seq<Event>, e: Event, start: nat, gap: nat) {
    match e
    case Paste(_, now) => now >= Clock(earlier, start) + gap
    case Sweep(inUse) => inUse in Recency(earlier)
  }

  ghost predicate WellTimed(events: seq<Event>, start: nat, gap: nat) {
    forall i {:trigger events[i]} :: 0 <= i < |events| ==> Admits(events[..i], events[i], start, gap)
  }

  /** A run over a directory whose generated files, left by earlier runs, are
      older than the start. */
  ghost predicate Run(keep: nat, start: nat, trace: seq<Listing>, events: seq<Event>) {
    && |trace| == |events| + 1
    && (forall n :: n in trace[0] && IsGeneratedName(n) ==> trace[0][n].mtime < start)
    && (forall i {:trigger events[i]} :: 0 <= i < |events| ==> Next(keep, trace[i], events[i], trace[i + 1]))
  }

  function Cap(keep: nat): nat {
    if keep == 0 then 1 else keep
  }

  ghost function Generated(files: Listing): set<string> {
    set n | n in files && IsGeneratedName(n)
  }

  function Newest(names: seq<string>, cap: nat): seq<string> {
    if |names| <= cap then names else names[..cap]
  }

  // ---- The invariant ----

  /** File ages follow the recency order; what was not pasted is older still. */
  ghost predicate Ranked(files: Listing, names: seq<string>, start: nat, clock: int) {
    && Distinct(names)
    && (forall n :: n in names ==> IsGeneratedName(n))
    && (forall n :: n in files && IsGeneratedName(n) ==>
          files[n].mtime <= clock && (n in names <==> files[n].mtime >= start))
    && (forall i, j :: 0 <= i < j < |names| && names[i] in files && names[j] in files ==>
          files[names[i]].mtime > files[names[j]].mtime)
  }

  /** The most recent names are all on disk. */
  ghost predicate FrontPresent(files: Listing, names: seq<string>, cap: nat) {
    forall i :: 0 <= i < |names| && i < cap ==> names[i] in files
  }

  lemma PasteKeepsTheInvariant(files: Listing, names: seq<string>, start: nat, clock: int, cap: nat, png: seq<byte>, now: nat)
    requires Ranked(files, names, start, clock) && FrontPresent(files, names, cap) && now > clock >= start - 1
    ensures Ranked(Stored(files, png, now), MoveToFront(names, FileName(png)), start, now)
    ensures FrontPresent(Stored(files, png, now), MoveToFront(names, FileName(png)), cap)
  {
    var name, after := FileName(png), Stored(files, png, now);
    var moved := MoveToFront(names, name);
    FileNameIsGenerated(png);
    MovedElements(names, name);
    MoveToFrontDistinct(names, name);
    forall i, j | 0 <= i < j < |moved| && moved[i] in after && moved[j] in after
      ensures after[moved[i]].mtime > after[moved[j]].mtime
    {
      assert moved[j] != name && moved[j] == names[Origin(names, name, j)];
      if i > 0 {
        OriginIncreases(names, name, i, j);
        assert moved[i] != name && moved[i] == names[Origin(names, name, i)];
      }
    }
    forall i | 1 <= i < |moved| && i < cap
      ensures moved[i] in after
    {
      assert moved[i] == names[Origin(names, name, i)];
    }
  }

  /** A sweep that removes anything keeps exactly its quota of older files. */
  lemma RemovalMeansFullQuota(files: Listing, keep: nat, inUse: string, after: Listing, d: string)
    requires inUse in files && Capped(files, keep, inUse, after)
    requires d in Older(files, inUse) && d !in after
    ensures |Older(files, inUse) * after.Keys| == Others(keep)
  {
    var older := Older(files, inUse);
    SubsetCount(older * after.Keys, older);
  }

  lemma KeptRankBetween(files: Listing, names: seq<string>, start: nat, clock: int, keep: nat, p: nat, after: Listing, d: nat, k: string)
    requires Ranked(files, names, start, clock) && p < d < |names|
    requires names[p] in files && Capped(files, keep, names[p], after)
    requires names[d] in files && names[d] !in after
    requires k in Older(files, names[p]) && k in after
    ensures exists i :: p < i < d && names[i] == k
  {
    assert files[names[d]].mtime <= files[k].mtime < files[names[p]].mtime;
    assert k in names;
    var i := IndexIn(names, k);
    assert i > p && i < d;
  }

  /** Whatever a sweep removes has `cap - 1` newer files, besides the one in use,
      among those it keeps. */
  lemma SweepSparesTheFront(files: Listing, names: seq<string>, start: nat, clock: int, keep: nat, p: nat, after: Listing, d: nat)
    requires Ranked(files, names, start, clock) && p < |names| && d < |names|
    requires Capped(files, keep, names[p], after)
    requires names[d] in files && names[d] !in after
    ensures d >= Cap(keep) + p
  {
    var older := Older(files, names[p]);
    assert names[d] in older;
    RemovalMeansFullQuota(files, keep, names[p], after, names[d]);
    assert p < d;
    forall k | k in older * after.Keys
      ensures exists i :: p < i < d && names[i] == k
    {
      KeptRankBetween(files, names, start, clock, keep, p, after, d, k);
    }
    CountBetween(names, p, d, older * after.Keys);
  }

  lemma SweepKeepsTheInvariant(files: Listing, names: seq<string>, start: nat, clock: int, keep: nat, inUse: string, after: Listing)
    requires Ranked(files, names, start, clock) && FrontPresent(files, names, Cap(keep))
    requires inUse in names && Capped(files, keep, inUse, after)
    ensures Ranked(after, names, start, clock) && FrontPresent(after, names, Cap(keep))
  {
    var p := IndexIn(names, inUse);
    assert forall n :: n in after ==> n in files && after[n] == files[n];
    forall i | 0 <= i < |names| && i < Cap(keep)
      ensures names[i] in after
    {
      if names[i] !in after {
        SweepSparesTheFront(files, names, start, clock, keep, p, after, i);
      }
    }
  }

  lemma {:induction false} RunKeepsTheInvariant(keep: nat, start: nat, trace: seq<Listing>, events: seq<Event>)
    requires Run(keep, start, trace, events) && WellTimed(events, start, 1)
    ensures Clock(events, start) >= start - 1
    ensures Ranked(trace[|events|], Recency(events), start, Clock(events, start))
    ensures FrontPresent(trace[|events|], Recency(events), Cap(keep))
  {
    if events != [] {
      var n := |events| - 1;
      ShorterRun(keep, start, trace, events, 1);
      RunKeepsTheInvariant(keep, start, trace[..n + 1], events[..n]);
      var before, names, clock := trace[n], Recency(events[..n]), Clock(events[..n], start);
      match events[n]
      case Paste(png, now) => PasteKeepsTheInvariant(before, names, start, clock, Cap(keep), png, now);
      case Sweep(inUse) => SweepKeepsTheInvariant(before, names, start, clock, keep, inUse, trace[n + 1]);
    }
  }

  lemma ShorterRun(keep: nat, start: nat, trace: seq<Listing>, events: seq<Event>, gap: nat)
    requires events != [] && Run(keep, start, trace, events) && WellTimed(events, start, gap)
    ensures var n := |events| - 1;
            Run(keep, start, trace[..n + 1], events[..n]) && WellTimed(events[..n], start, gap)
  {
    var n := |events| - 1;
    forall i | 0 <= i < n
      ensures events[..n][..i] == events[..i]
    {}
    forall i {:trigger events[..n][i]} | 0 <= i < n
      ensures Next(keep, trace[..n + 1][i], events[..n][i], trace[..n + 1][i + 1])
    {
      assert Next(keep, trace[i], events[i], trace[i + 1]);
    }
    forall i {:trigger events[..n][i]} | 0 <= i < n
      ensures Admits(events[..n][..i], events[..n][i], start, gap)
    {
      assert events[..n][i] == events[i];
    }
  }

  // ---- What earlier runs left ----

  ghost predicate Lost(initial: Listing, files: Listing, names: seq<string>, n: string) {
    n in Generated(initial) && n !in files && n !in names
  }

  /** Leftovers that were not pasted again are as they were. */
  ghost predicate LeftAsTheyWere(initial: Listing, files: Listing, names: seq<string>) {
    forall n :: n in Generated(files) && n !in names ==> n in initial && files[n] == initial[n]
  }

  /** What is gone of them is no newer than what is there. */
  ghost predicate OldestLostFirst(initial: Listing, files: Listing, names: seq<string>) {
    forall lost, kept :: Lost(initial, files, names, lost) && kept in Generated(files) - Elements(names) ==>
      initial[lost].mtime <= files[kept].mtime
  }

  /** Nothing went before the quota was full. */
  ghost predicate FullBeforeLosing(initial: Listing, files: Listing, names: seq<string>, cap: nat) {
    forall lost :: (lost in names || lost in Generated(initial)) && lost !in files ==> |Generated(files)| >= cap
  }

  ghost predicate Inherited(initial: Listing, files: Listing, names: seq<string>, cap: nat) {
    && LeftAsTheyWere(initial, files, names) && OldestLostFirst(initial, files, names)
    && FullBeforeLosing(initial, files, names, cap)
  }

  lemma PasteKeepsInherited(initial: Listing, files: Listing, names: seq<string>, cap: nat, png: seq<byte>, now: nat)
    requires Inherited(initial, files, names, cap)
    ensures Inherited(initial, Stored(files, png, now), MoveToFront(names, FileName(png)), cap)
  {
    FileNameIsGenerated(png);
    MovedElements(names, FileName(png));
    var after := Stored(files, png, now);
    SubsetCount(Generated(files), Generated(after));
  }

  /** A sweep that removes anything leaves the quota and the file in use. */
  lemma RemovalLeavesTheQuota(files: Listing, keep: nat, inUse: string, after: Listing, lost: string)
    requires inUse in files && IsGeneratedName(inUse) && Capped(files, keep, inUse, after)
    requires lost in files && lost !in after
    ensures |Generated(after)| >= Cap(keep)
  {
    var older := Older(files, inUse);
    RemovalMeansFullQuota(files, keep, inUse, after, lost);
    SubsetCount({inUse} + older * after.Keys, Generated(after));
  }

  lemma SweepKeepsInherited(initial: Listing, files: Listing, names: seq<string>, start: nat, clock: int, keep: nat,
                            inUse: string, after: Listing)
    requires Ranked(files, names, start, clock) && inUse in names && Capped(files, keep, inUse, after)
    requires Inherited(initial, files, names, Cap(keep))
    ensures Inherited(initial, after, names, Cap(keep))
  {
    if inUse in files {
      assert forall n :: n in after ==> n in files && after[n] == files[n];
      SweepFillsTheQuota(initial, files, names, keep, inUse, after);
      SweepTakesTheOldest(initial, files, names, start, clock, keep, inUse, after);
    }
  }

  lemma SweepFillsTheQuota(initial: Listing, files: Listing, names: seq<string>, keep: nat, inUse: string, after: Listing)
    requires inUse in files && IsGeneratedName(inUse) && Capped(files, keep, inUse, after)
    requires FullBeforeLosing(initial, files, names, Cap(keep))
    ensures FullBeforeLosing(initial, after, names, Cap(keep))
  {
    if lost :| lost in files && lost !in after {
      RemovalLeavesTheQuota(files, keep, inUse, after, lost);
    } else {
      assert Generated(after) == Generated(files);
    }
  }

  /** Leftovers are all older than the file in use, so the sweep takes the oldest
      of them first. */
  lemma SweepTakesTheOldest(initial: Listing, files: Listing, names: seq<string>, start: nat, clock: int, keep: nat,
                            inUse: string, after: Listing)
    requires Ranked(files, names, start, clock) && inUse in names && inUse in files && Capped(files, keep, inUse, after)
    requires LeftAsTheyWere(initial, files, names) && OldestLostFirst(initial, files, names)
    ensures OldestLostFirst(initial, after, names)
  {
    forall n | n in Generated(files) && n !in names
      ensures n in Older(files, inUse)
    {}
    forall lost, kept | Lost(initial, after, names, lost) && kept in Generated(after) - Elements(names)
      ensures initial[lost].mtime <= after[kept].mtime
    {
      assert kept in Older(files, inUse) && after[kept] == files[kept];
      if lost in files {
        assert lost in Older(files, inUse);
      }
    }
  }

  lemma {:induction false} RunKeepsInherited(keep: nat, start: nat, trace: seq<Listing>, events: seq<Event>)
    requires Run(keep, start, trace, events) && WellTimed(events, start, 1)
    ensures Inherited(trace[0], trace[|events|], Recency(events), Cap(keep))
  {
    if events != [] {
      var n := |events| - 1;
      ShorterRun(keep, start, trace, events, 1);
      RunKeepsInherited(keep, start, trace[..n + 1], events[..n]);
      RunKeepsTheInvariant(keep, start, trace[..n + 1], events[..n]);
      var before, names, clock := trace[n], Recency(events[..n]), Clock(events[..n], start);
      match events[n]
      case Paste(png, now) => PasteKeepsInherited(trace[0], before, names, Cap(keep), png, now);
      case Sweep(inUse) => SweepKeepsInherited(trace[0], before, names, start, clock, keep, inUse, trace[n + 1]);
    }
  }

  // ---- The theorems ----

  /** However long sweeps wait, no interleaving ever loses one of the
      max(keep, 1) most recently pasted images; the one just pasted is first
      among them. */
  lemma RecentPastesSurvive(keep: nat, start: nat, trace: seq<Listing>, events: seq<Event>)
    requires Run(keep, start, trace, events) && WellTimed(events, start, 1)
    ensures Elements(Newest(Recency(events), Cap(keep))) <= Generated(trace[|events|])
    ensures Generated(trace[|events|]) <= Elements(Recency(events)) + Generated(trace[0])
  {
    RunKeepsTheInvariant(keep, start, trace, events);
    RunKeepsInherited(keep, start, trace, events);
    FrontIsHeld(trace[|events|], Recency(events), Cap(keep));
  }

  lemma FrontIsHeld(files: Listing, names: seq<string>, cap: nat)
    requires FrontPresent(files, names, cap) && forall n :: n in names ==> IsGeneratedName(n)
    ensures Elements(Newest(names, cap)) <= Generated(files)
  {
    forall n | n in Newest(names, cap)
      ensures n in Generated(files)
    {
      var i := IndexIn(Newest(names, cap), n);
      assert names[i] == n;
    }
  }

  /** The directory holds its cap of generated files, or all there ever were: of
      the pasted names the most recent, then the newest of what earlier runs
      left. */
  ghost predicate HoldsNewest(initial: Listing, names: seq<string>, keep: nat, files: Listing) {
    var held := Generated(files);
    && held <= Elements(names) + Generated(initial)
    && held * Elements(names) == Elements(Newest(names, Cap(keep)))
    && |held| <= Cap(keep)
    && (|held| == Cap(keep) || held == Elements(names) + Generated(initial))
    && (forall lost, kept :: Lost(initial, files, names, lost) && kept in held - Elements(names) ==>
          kept in initial && initial[lost].mtime <= initial[kept].mtime)
  }

  /** Once the latest paste has been swept for, the directory holds exactly the
      max(keep, 1) newest images. */
  lemma SweptDirectoryHoldsTheNewest(keep: nat, start: nat, trace: seq<Listing>, events: seq<Event>)
    requires Run(keep, start, trace, events) && WellTimed(events, start, 1)
    requires events != [] && Recency(events) != []
    requires events[|events| - 1] == Sweep(Recency(events)[0])
    ensures HoldsNewest(trace[0], Recency(events), keep, trace[|events|])
  {
    var n := |events| - 1;
    var names := Recency(events);
    ShorterRun(keep, start, trace, events, 1);
    RunKeepsTheInvariant(keep, start, trace[..n + 1], events[..n]);
    RunKeepsInherited(keep, start, trace, events);
    RecentPastesSurvive(keep, start, trace, events);
    assert names == Recency(events[..n]);
    SweepLeavesTheCap(trace[n], names, start, Clock(events[..n], start), keep, trace[n + 1]);
    FullOfTheNewest(trace[0], names, keep, trace[n + 1]);
  }

  /** Everything else is older than the latest paste, so its sweep keeps at most
      the cap. */
  lemma SweepLeavesTheCap(files: Listing, names: seq<string>, start: nat, clock: int, keep: nat, after: Listing)
    requires Ranked(files, names, start, clock) && FrontPresent(files, names, Cap(keep)) && names != []
    requires Capped(files, keep, names[0], after)
    ensures |Generated(after)| <= Cap(keep)
  {
    var older, latest := Older(files, names[0]), names[0];
    assert latest in files;
    forall g | g in Generated(after) && g != latest
      ensures g in older * after.Keys
    {
      if g in names {
        var i := IndexIn(names, g);
        assert names[i] in files;
      }
    }
    assert Generated(after) <= {latest} + older * after.Keys;
    SubsetCount(Generated(after), {latest} + older * after.Keys);
  }

  lemma FullOfTheNewest(initial: Listing, names: seq<string>, keep: nat, files: Listing)
    requires Distinct(names) && Inherited(initial, files, names, Cap(keep)) && |Generated(files)| <= Cap(keep)
    requires forall n :: n in names ==> IsGeneratedName(n)
    requires Elements(Newest(names, Cap(keep))) <= Generated(files) <= Elements(names) + Generated(initial)
    ensures HoldsNewest(initial, names, keep, files)
  {
    NewestOfThePasted(names, Cap(keep), Generated(files));
    if |Generated(files)| < Cap(keep) {
      NothingLost(initial, names, Cap(keep), files);
    }
  }

  lemma NewestOfThePasted(names: seq<string>, cap: nat, held: set<string>)
    requires Distinct(names) && Elements(Newest(names, cap)) <= held && |held| <= cap
    ensures held * Elements(names) == Elements(Newest(names, cap))
  {
    var newest := Newest(names, cap);
    if |names| > cap {
      DistinctCount(newest);
      SubsetCount(Elements(newest), held);
      assert forall n :: n in newest ==> n in names;
    }
  }

  lemma NothingLost(initial: Listing, names: seq<string>, cap: nat, files: Listing)
    requires Inherited(initial, files, names, cap) && |Generated(files)| < cap
    requires forall n :: n in names ==> IsGeneratedName(n)
    ensures Elements(names) + Generated(initial) <= Generated(files)
  {
    forall n | n in names || n in Generated(initial)
      ensures n in Generated(files)
    {}
  }

  /** From a directory without generated files, that is the newest pastes alone. */
  lemma HoldsNewestFromEmpty(initial: Listing, names: seq<string>, keep: nat, files: Listing)
    requires HoldsNewest(initial, names, keep, files) && Generated(initial) == {}
    ensures Generated(files) == Elements(Newest(names, Cap(keep)))
  {
  }

  /** Pastes that are each swept for at once. */
  function PasteAndSweep(pngs: seq<seq<byte>>, times: seq<nat>): seq<Event>
    requires |pngs| == |times|
  {
    if pngs == [] then []
    else
      var n := |pngs| - 1;
      PasteAndSweep(pngs[..n], times[..n]) + [Paste(pngs[n], times[n])] + [Sweep(FileName(pngs[n]))]
  }

  /** The names of the images, without repeats, the last one first. */
  function RecentNames(pngs: seq<seq<byte>>): seq<string> {
    if pngs == [] then [] else MoveToFront(RecentNames(pngs[..|pngs| - 1]), FileName(pngs[|pngs| - 1]))
  }

  lemma Append(events: seq<Event>, e: Event, start: nat, gap: nat)
    requires WellTimed(events, start, gap)
    requires Admits(events, e, start, gap)
    ensures WellTimed(events + [e], start, gap)
    ensures Clock(events + [e], start) == if e.Paste? then e.now else Clock(events, start)
    ensures Recency(events + [e]) == if e.Paste? then MoveToFront(Recency(events), FileName(e.png)) else Recency(events)
  {
    var longer := events + [e];
    assert longer[..|events|] == events;
    forall i {:trigger longer[i]} | 0 <= i < |longer|
      ensures Admits(longer[..i], longer[i], start, gap)
    {
      if i < |events| {
        assert longer[..i] == events[..i] && longer[i] == events[i];
      }
    }
  }

  lemma {:induction false} PasteAndSweepIsWellTimed(pngs: seq<seq<byte>>, times: seq<nat>, start: nat)
    requires |pngs| == |times| && forall i, j :: 0 <= i < j < |times| ==> times[i] < times[j]
    requires times != [] ==> start <= times[0]
    ensures var events := PasteAndSweep(pngs, times);
            && WellTimed(events, start, 1) && Recency(events) == RecentNames(pngs)
            && Clock(events, start) == if times == [] then start - 1 else times[|times| - 1]
  {
    if pngs != [] {
      var n := |pngs| - 1;
      PasteAndSweepIsWellTimed(pngs[..n], times[..n], start);
      var earlier := PasteAndSweep(pngs[..n], times[..n]);
      Append(earlier, Paste(pngs[n], times[n]), start, 1);
      MovedElements(Recency(earlier), FileName(pngs[n]));
      Append(earlier + [Paste(pngs[n], times[n])], Sweep(FileName(pngs[n])), start, 1);
    }
  }

  /** Pasting images one after another, with the clock moving on each time,
      leaves exactly the max(keep, 1) newest ones; pasting an old image again
      brings it to the front. */
  lemma PastingKeepsTheMostRecent(keep: nat, start: nat, trace: seq<Listing>, pngs: seq<seq<byte>>, times: seq<nat>)
    requires |pngs| == |times| && forall i, j :: 0 <= i < j < |times| ==> times[i] < times[j]
    requires pngs != [] && start <= times[0] && Run(keep, start, trace, PasteAndSweep(pngs, times))
    ensures HoldsNewest(trace[0], RecentNames(pngs), keep, trace[|trace| - 1])
  {
    PasteAndSweepIsWellTimed(pngs, times, start);
    SweptDirectoryHoldsTheNewest(keep, start, trace, PasteAndSweep(pngs, times));
  }

  /** Even when the clock stands still between pastes, no sweep ever takes the
      path the latest paste returned. */
  lemma {:induction false} LatestPasteSurvives(keep: nat, start: nat, trace: seq<Listing>, events: seq<Event>)
    requires Run(keep, start, trace, events) && WellTimed(events, start, 0)
    ensures forall n :: n in Generated(trace[|events|]) ==> trace[|events|][n].mtime <= Clock(events, start)
    ensures Recency(events) != [] ==>
              var latest := Recency(events)[0];
              latest in trace[|events|] && trace[|events|][latest].mtime == Clock(events, start)
    ensures forall n :: n in Recency(events) ==> IsGeneratedName(n)
  {
    if events != [] {
      var n := |events| - 1;
      ShorterRun(keep, start, trace, events, 0);
      LatestPasteSurvives(keep, start, trace[..n + 1], events[..n]);
      if events[n].Paste? {
        FileNameIsGenerated(events[n].png);
        MovedElements(Recency(events[..n]), FileName(events[n].png));
      }
    }
  }

  /** Files that are not generated are never touched. */
  lemma {:induction false} ForeignFilesAreUntouched(keep: nat, start: nat, trace: seq<Listing>, events: seq<Event>, name: string)
    requires Run(keep, start, trace, events) && !IsGeneratedName(name)
    ensures name in trace[|events|] <==> name in trace[0]
    ensures name in trace[0] ==> trace[|events|][name] == trace[0][name]
  {
    if events != [] {
      var n := |events| - 1;
      assert Run(keep, start, trace[..n + 1], events[..n]) by {
        forall i {:trigger events[..n][i]} | 0 <= i < n
          ensures Next(keep, trace[..n + 1][i], events[..n][i], trace[..n + 1][i + 1])
        {
          assert Next(keep, trace[i], events[i], trace[i + 1]);
        }
      }
      ForeignFilesAreUntouched(keep, start, trace[..n + 1], events[..n], name);
      if events[n].Paste? {
        FileNameIsGenerated(events[n].png);
      }
    }
  }

  // ---- Contents ----

  /** Every generated file holds bytes its name was made from. */
  ghost predicate ContentAddressed(files: Listing) {
    forall n :: n in files && IsGeneratedName(n) ==> FileName(files[n].bytes) == n
  }

  lemma StepKeepsContentAddressed(keep: nat, before: Listing, e: Event, after: Listing)
    requires ContentAddressed(before) && Next(keep, before, e, after)
    ensures ContentAddressed(after)
  {}

  /** A stored path holds the pasted image, unless an image of the same size and
      digest that differs in more than one byte was there first. */
  lemma StoredPathHoldsTheImage(files: Listing, png: seq<byte>, now: nat)
    requires ContentAddressed(files)
    ensures var held := Stored(files, png, now)[FileName(png)].bytes;
            || held == png
            || (|held| == |png| && DigestOf(held) == DigestOf(png)
                && exists i, j :: 0 <= i < j < |png| && held[i] != png[i] && held[j] != png[j])
  {
    var held := Stored(files, png, now)[FileName(png)].bytes;
    FileNameIsGenerated(png);
    if held != png {
      FileNameCarriesTheDigest(held, png);
      var i :| 0 <= i < |png| && held[i] != png[i];
      if forall j :: 0 <= j < |png| && j != i ==> held[j] == png[j] {
        assert held == png[i := held[i]];
        OneByteChangesTheDigest(png, i, held[i]);
      }
    }
  }
}
