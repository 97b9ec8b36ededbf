/** What holds of the status row over any run of triggers, reports and ticks. */
module ActivityRuns {
  import opened Options
  import opened Estimates
  import opened ScanRoots
  import opened Activities

  // ---- How things end ----

  /** Failures are the reports that are errors, the first of them first. */
  lemma {:induction false} FailuresInReports(reports: seq<Report>)
    ensures |FailuresIn(reports)| <= |reports|
    ensures FailuresIn(reports) == [] <==> forall i :: 0 <= i < |reports| ==> reports[i].1.Ok?
    ensures forall f :: f in FailuresIn(reports) <==> (f.0, Err(f.1)) in reports
    ensures FailuresIn(reports) != [] ==>
      exists i :: 0 <= i < |reports| && reports[i] == (FailuresIn(reports)[0].0, Err(FailuresIn(reports)[0].1))
        && forall k :: 0 <= k < i ==> reports[k].1.Ok?
  {
    if reports != [] {
      FailuresInReports(reports[1..]);
      if reports[0].1.Ok? && FailuresIn(reports) != [] {
        var i :| 0 <= i < |reports[1..]|
          && reports[1..][i] == (FailuresIn(reports)[0].0, Err(FailuresIn(reports)[0].1))
          && forall k :: 0 <= k < i ==> reports[1..][k].1.Ok?;
        assert reports[i + 1] == reports[1..][i];
        assert forall k :: 1 <= k < i + 1 ==> reports[k] == reports[1..][k - 1];
      }
      assert forall r :: r in reports <==> r == reports[0] || r in reports[1..];
    }
  }

  lemma EndingIsShowable(reports: seq<Report>)
    ensures EndingOf(reports).Failed? ==>
      1 <= |EndingOf(reports).failure.failures| <= EndingOf(reports).failure.total == |reports|
  {
    FailuresInReports(reports);
  }

  /** A batch every step of which came to a good end, one way or the other. */
  predicate WentWell(snapshot: Snapshot) {
    && !(snapshot.steps == [] && snapshot.end == Some(Panicked))
    && forall i :: 0 <= i < |snapshot.steps| ==>
         snapshot.steps[i].outcome == Some(Ok)
         || (snapshot.steps[i].outcome.None? && snapshot.end != Some(Panicked) && snapshot.end != Some(Cancelled))
  }

  predicate AllOk(reports: seq<Report>) {
    forall i :: 0 <= i < |reports| ==> reports[i].1.Ok?
  }

  lemma AllOkConcat(a: seq<Report>, b: seq<Report>)
    ensures AllOk(a + b) <==> AllOk(a) && AllOk(b)
  {
    assert forall i :: 0 <= i < |a| ==> (a + b)[i] == a[i];
    assert forall i :: 0 <= i < |b| ==> (a + b)[|a| + i] == b[i];
  }

  lemma AllOkOne(r: Report)
    ensures AllOk([r]) <==> r.1.Ok?
  {
    assert [r][0] == r;
  }

  lemma {:induction false} StepReportsOk(steps: seq<Step>, end: Option<JobEnd>)
    ensures |StepReports(steps, end)| == |steps|
    ensures AllOk(StepReports(steps, end)) <==>
      forall i :: 0 <= i < |steps| ==> StepReport(steps[i], end).1.Ok?
  {
    if steps != [] {
      var most, last := steps[..|steps| - 1], steps[|steps| - 1];
      StepReportsOk(most, end);
      AllOkConcat(StepReports(most, end), [StepReport(last, end)]);
      AllOkOne(StepReport(last, end));
      assert forall i :: 0 <= i < |most| ==> steps[i] == most[i];
    }
  }

  lemma {:induction false} ReportsOk(readers: seq<Reader>, seen: Progress)
    ensures AllOk(Reports(readers, seen)) <==> forall r :: r in readers ==> WentWell(seen(r))
    ensures Reports(readers, seen) == [] <==>
      forall r :: r in readers ==> seen(r).steps == [] && seen(r).end != Some(Panicked)
  {
    if readers != [] {
      var most, last := readers[..|readers| - 1], readers[|readers| - 1];
      ReportsOk(most, seen);
      var snapshot := seen(last);
      StepReportsOk(snapshot.steps, snapshot.end);
      AllOkConcat(Reports(most, seen), Lost(snapshot));
      AllOkConcat(Reports(most, seen) + Lost(snapshot), StepReports(snapshot.steps, snapshot.end));
      AllOkOne(("PR lookup", Err("worker panicked")));
      assert forall r :: r in readers <==> r in most || r == last;
      assert forall i :: 0 <= i < |snapshot.steps| ==>
        (StepReport(snapshot.steps[i], snapshot.end).1.Ok? <==>
          snapshot.steps[i].outcome == Some(Ok)
          || (snapshot.steps[i].outcome.None? && snapshot.end != Some(Panicked) && snapshot.end != Some(Cancelled)));
    }
  }

  /** A refresh reports success exactly when some step or crash was seen and
      every batch went well, and nothing to check exactly when none was. */
  lemma PrEndsWellExactlyWhen(readers: seq<Reader>, seen: Progress)
    ensures PrEnding(readers, seen).NothingToCheck? <==>
      forall r :: r in readers ==> seen(r).steps == [] && seen(r).end != Some(Panicked)
    ensures PrEnding(readers, seen).AllDone? <==>
      !PrEnding(readers, seen).NothingToCheck? && forall r :: r in readers ==> WentWell(seen(r))
  {
    ReportsOk(readers, seen);
    FailuresInReports(Reports(readers, seen));
  }

  // ---- What a failed refresh names ----

  /** A batch fails a step that ended in an error, every step left when it crashed or
      was given up, and the lookup itself when it crashed before any. */
  predicate Blames(snapshot: Snapshot, name: string, message: string) {
    || (snapshot.steps == [] && snapshot.end == Some(Panicked) && name == "PR lookup" && message == "worker panicked")
    || exists i :: 0 <= i < |snapshot.steps| && BlamesStep(snapshot.steps[i], snapshot.end, name, message)
  }

  predicate BlamesStep(step: Step, end: Option<JobEnd>, name: string, message: string) {
    && step.name == name
    && (|| step.outcome == Some(Err(message))
        || (step.outcome.None? && end == Some(Panicked) && message == "worker panicked")
        || (step.outcome.None? && end == Some(Cancelled) && message == "timed out"))
  }

  /** The steps of all batches, and one for each that crashed before any. */
  function StepCount(readers: seq<Reader>, seen: Progress): nat {
    if readers == [] then 0
    else
      var most, last := readers[..|readers| - 1], seen(readers[|readers| - 1]);
      StepCount(most, seen) + if last.steps == [] && last.end == Some(Panicked) then 1 else |last.steps|
  }

  lemma {:induction false} StepsBlamed(steps: seq<Step>, end: Option<JobEnd>, name: string, message: string)
    ensures (name, Err(message)) in StepReports(steps, end)
       <==> exists i :: 0 <= i < |steps| && BlamesStep(steps[i], end, name, message)
  {
    if steps != [] {
      var most, last := steps[..|steps| - 1], steps[|steps| - 1];
      StepsBlamed(most, end, name, message);
      assert StepReport(last, end) == (name, Err(message)) <==> BlamesStep(last, end, name, message);
      if i :| 0 <= i < |steps| && BlamesStep(steps[i], end, name, message) {
        assert i < |most| ==> most[i] == steps[i];
      }
      if i :| 0 <= i < |most| && BlamesStep(most[i], end, name, message) {
        assert steps[i] == most[i];
      }
      assert last == steps[|steps| - 1];
    }
  }

  lemma {:induction false} ReportsBlame(readers: seq<Reader>, seen: Progress, name: string, message: string)
    ensures (name, Err(message)) in Reports(readers, seen)
       <==> exists r :: r in readers && Blames(seen(r), name, message)
    ensures |Reports(readers, seen)| == StepCount(readers, seen)
  {
    if readers != [] {
      var most, last := readers[..|readers| - 1], readers[|readers| - 1];
      ReportsBlame(most, seen, name, message);
      StepsBlamed(seen(last).steps, seen(last).end, name, message);
      StepReportsOk(seen(last).steps, seen(last).end);
      LostBlames(seen(last), name, message);
      assert forall r :: r in readers <==> r in most || r == last;
    }
  }

  lemma LostBlames(snapshot: Snapshot, name: string, message: string)
    ensures (name, Err(message)) in Lost(snapshot)
       <==> snapshot.steps == [] && snapshot.end == Some(Panicked) && name == "PR lookup" && message == "worker panicked"
  {
  }

  /** A failed refresh names exactly what its batches fail, out of all their steps. */
  lemma FailuresAreBlamed(readers: seq<Reader>, seen: Progress, name: string, message: string)
    ensures var ending := PrEnding(readers, seen);
      ((exists r :: r in readers && Blames(seen(r), name, message))
       <==> ending.Failed? && (name, message) in ending.failure.failures)
      && (ending.Failed? ==> ending.failure.total == StepCount(readers, seen))
  {
    var reports := Reports(readers, seen);
    ReportsBlame(readers, seen, name, message);
    FailuresInReports(reports);
    assert (name, message) in FailuresIn(reports) <==> (name, Err(message)) in reports;
  }

  lemma {:induction false} RootReportsOk(roots: seq<Root>, display: Path -> string)
    requires AllAnswered(roots)
    ensures AllOk(RootReports(roots, display)) <==> forall r :: r in roots ==> r.result == Some(Ok)
  {
    if roots != [] {
      RootReportsOk(roots[1..], display);
      assert RootReports(roots, display)[1..] == RootReports(roots[1..], display);
      assert forall r :: r in roots <==> r == roots[0] || r in roots[1..];
      AllOkConcat([(display(roots[0].path), roots[0].result.value)], RootReports(roots[1..], display));
      AllOkOne((display(roots[0].path), roots[0].result.value));
    }
  }

  // ---- Ticking twice ----

  predicate Counts(step: Step) {
    step.outcome.Some? && step.took.Some?
  }

  ghost predicate HasFolded(f: Fold, reader: nat, steps: seq<Step>) {
    forall i :: 0 <= i < |steps| && Counts(steps[i]) ==> (reader, steps[i].name) in f.folded
  }

  lemma {:induction false} FoldStepsFolds(f: Fold, reader: nat, steps: seq<Step>)
    ensures f.folded <= FoldSteps(f, reader, steps).folded
    ensures HasFolded(FoldSteps(f, reader, steps), reader, steps)
  {
    if steps != [] {
      FoldStepsFolds(f, reader, steps[..|steps| - 1]);
      assert forall i :: 0 <= i < |steps| - 1 ==> steps[i] == steps[..|steps| - 1][i];
    }
  }

  lemma {:induction false} FoldingAgainKeeps(f: Fold, reader: nat, steps: seq<Step>)
    requires HasFolded(f, reader, steps)
    ensures FoldSteps(f, reader, steps) == f
  {
    if steps != [] {
      var most := steps[..|steps| - 1];
      assert forall i :: 0 <= i < |most| ==> steps[i] == most[i];
      FoldingAgainKeeps(f, reader, most);
      assert Counts(steps[|steps| - 1]) ==> (reader, steps[|steps| - 1].name) in f.folded;
    }
  }

  lemma {:induction false} FoldReadersFolds(f: Fold, readers: seq<Reader>, seen: Progress, n: nat)
    requires n <= |readers|
    ensures f.folded <= FoldReaders(f, readers, seen, n).folded
    ensures forall i :: 0 <= i < n ==> HasFolded(FoldReaders(f, readers, seen, n), i, seen(readers[i]).steps)
  {
    if n > 0 {
      FoldReadersFolds(f, readers, seen, n - 1);
      FoldStepsFolds(FoldReaders(f, readers, seen, n - 1), n - 1, seen(readers[n - 1]).steps);
    }
  }

  lemma {:induction false} FoldingReadersAgainKeeps(f: Fold, readers: seq<Reader>, seen: Progress, n: nat)
    requires n <= |readers|
    requires forall i :: 0 <= i < n ==> HasFolded(f, i, seen(readers[i]).steps)
    ensures FoldReaders(f, readers, seen, n) == f
  {
    if n > 0 {
      FoldingReadersAgainKeeps(f, readers, seen, n - 1);
      FoldingAgainKeeps(f, n - 1, seen(readers[n - 1]).steps);
    }
  }

  /** A second tick on the same reports changes nothing at all. */
  lemma TickingTwiceIsTickingOnce(s: State, now: nat, later: nat, seen: Progress, settled: Progress,
                                  again: Progress, display: Path -> string)
    ensures var once := Ticked(s, now, seen, settled, display);
      Ticked(once, later, seen, again, display) == once
  {
    if s.pr.Some? {
      var pr := s.pr.value;
      var f := Fold(pr.folded, s.timings);
      var g := FoldReaders(f, pr.readers, seen, |pr.readers|);
      FoldReadersFolds(f, pr.readers, seen, |pr.readers|);
      FoldingReadersAgainKeeps(g, pr.readers, seen, |pr.readers|);
    }
  }

  // ---- Where timings come from ----

  /** A step that succeeded in the time given. */
  predicate Succeeded(step: Step, name: string, took: nat) {
    step == Step(name, Some(Ok), Some(took))
  }

  function TimingOf(timings: Timings, name: string): Option<nat> {
    if name in timings then Some(timings[name]) else None
  }

  /** The first ended step of this name; later ones of one reader do not count. */
  function FirstEnded(steps: seq<Step>, name: string): Option<Step> {
    if steps == [] then None
    else if steps[0].name == name && Counts(steps[0]) then Some(steps[0])
    else FirstEnded(steps[1..], name)
  }

  /** The time a reader newly reports for a name. */
  function Fresh(folded: set<(nat, string)>, reader: nat, steps: seq<Step>, name: string): Option<nat> {
    if (reader, name) in folded then None
    else
      var first := FirstEnded(steps, name);
      if first.Some? && first.value.outcome == Some(Ok) then first.value.took else None
  }

  lemma {:induction false} FirstEndedIsShown(steps: seq<Step>, name: string)
    ensures FirstEnded(steps, name).Some? ==>
      exists i :: 0 <= i < |steps| && steps[i] == FirstEnded(steps, name).value
        && steps[i].name == name && Counts(steps[i])
  {
    if steps != [] && !(steps[0].name == name && Counts(steps[0])) {
      FirstEndedIsShown(steps[1..], name);
      if FirstEnded(steps, name).Some? {
        var i :| 0 <= i < |steps[1..]| && steps[1..][i] == FirstEnded(steps, name).value;
        assert steps[i + 1] == FirstEnded(steps, name).value;
      }
    }
  }

  lemma {:induction false} FirstEndedGrows(steps: seq<Step>, last: Step, name: string)
    ensures FirstEnded(steps + [last], name)
         == if FirstEnded(steps, name).Some? then FirstEnded(steps, name)
            else if last.name == name && Counts(last) then Some(last) else None
  {
    if steps == [] {
      assert (steps + [last])[1..] == [];
    } else {
      assert (steps + [last])[1..] == steps[1..] + [last];
      FirstEndedGrows(steps[1..], last, name);
    }
  }

  /** Folding a reader times a name anew exactly when its first ended step of the
      name is new and a success. */
  lemma {:induction false} FoldStepsTimes(f: Fold, reader: nat, steps: seq<Step>, name: string)
    ensures var anew := Fresh(f.folded, reader, steps, name);
      TimingOf(FoldSteps(f, reader, steps).timings, name)
      == if anew.Some? then anew else TimingOf(f.timings, name)
    ensures (reader, name) in FoldSteps(f, reader, steps).folded
       <==> (reader, name) in f.folded || FirstEnded(steps, name).Some?
  {
    if steps != [] {
      var most, last := steps[..|steps| - 1], steps[|steps| - 1];
      FoldStepsTimes(f, reader, most, name);
      FirstEndedGrows(most, last, name);
      assert most + [last] == steps;
    }
  }

  /** What the readers up to n newly report for a name: the last of them wins. */
  function LatestFresh(f: Fold, readers: seq<Reader>, seen: Progress, n: nat, name: string): Option<nat>
    requires n <= |readers|
  {
    if n == 0 then None
    else
      var anew := Fresh(f.folded, n - 1, seen(readers[n - 1]).steps, name);
      if anew.Some? then anew else LatestFresh(f, readers, seen, n - 1, name)
  }

  lemma {:induction false} OthersKeepFolded(f: Fold, reader: nat, steps: seq<Step>, other: nat, name: string)
    requires other != reader
    ensures (other, name) in FoldSteps(f, reader, steps).folded <==> (other, name) in f.folded
  {
    if steps != [] {
      OthersKeepFolded(f, reader, steps[..|steps| - 1], other, name);
    }
  }

  lemma {:induction false} LaterReadersUnfolded(f: Fold, readers: seq<Reader>, seen: Progress, n: nat, other: nat, name: string)
    requires n <= |readers| && other >= n
    ensures (other, name) in FoldReaders(f, readers, seen, n).folded <==> (other, name) in f.folded
  {
    if n > 0 {
      LaterReadersUnfolded(f, readers, seen, n - 1, other, name);
      OthersKeepFolded(FoldReaders(f, readers, seen, n - 1), n - 1, seen(readers[n - 1]).steps, other, name);
    }
  }

  /** The table after a fold, name by name: the latest newly reported success, or
      what it held before. A failure never changes it. */
  lemma {:induction false} FoldReadersTimes(f: Fold, readers: seq<Reader>, seen: Progress, n: nat, name: string)
    requires n <= |readers|
    ensures var anew := LatestFresh(f, readers, seen, n, name);
      TimingOf(FoldReaders(f, readers, seen, n).timings, name)
      == if anew.Some? then anew else TimingOf(f.timings, name)
  {
    if n > 0 {
      FoldReadersTimes(f, readers, seen, n - 1, name);
      LaterReadersUnfolded(f, readers, seen, n - 1, n - 1, name);
      FoldStepsTimes(FoldReaders(f, readers, seen, n - 1), n - 1, seen(readers[n - 1]).steps, name);
    }
  }

  /** So does every tick, also the one that ends the refresh. */
  lemma TickTimes(s: State, now: nat, seen: Progress, settled: Progress, display: Path -> string, name: string)
    ensures var after := Ticked(s, now, seen, settled, display).timings;
      TimingOf(after, name)
      == if s.pr.None? then TimingOf(s.timings, name)
         else
           var pr := s.pr.value;
           var anew := LatestFresh(Fold(pr.folded, s.timings), pr.readers, seen, |pr.readers|, name);
           if anew.Some? then anew else TimingOf(s.timings, name)
  {
    if s.pr.Some? {
      var pr := s.pr.value;
      FoldReadersTimes(Fold(pr.folded, s.timings), pr.readers, seen, |pr.readers|, name);
    }
  }

  /** Some reader shows a success of this name in this time. */
  ghost predicate Shows(readers: seq<Reader>, seen: Progress, name: string, took: nat) {
    exists r, i :: r in readers && 0 <= i < |seen(r).steps| && Succeeded(seen(r).steps[i], name, took)
  }

  lemma {:induction false} LatestFreshIsShown(f: Fold, readers: seq<Reader>, seen: Progress, n: nat, name: string)
    requires n <= |readers| && LatestFresh(f, readers, seen, n, name).Some?
    ensures Shows(readers, seen, name, LatestFresh(f, readers, seen, n, name).value)
  {
    var steps := seen(readers[n - 1]).steps;
    var anew := Fresh(f.folded, n - 1, steps, name);
    if anew.Some? {
      FirstEndedIsShown(steps, name);
      var i :| 0 <= i < |steps| && steps[i] == FirstEnded(steps, name).value && steps[i].name == name;
      assert readers[n - 1] in readers && Succeeded(steps[i], name, anew.value);
    } else {
      LatestFreshIsShown(f, readers, seen, n - 1, name);
    }
  }

  // ---- Runs ----

  datatype Event =
    | Trigger(kind: Kind, now: nat)
    | AddReader(reader: Reader)
    | Settle
    | ReportOff(now: nat)
    | OfRoot(event: RootEvent)
    | Tick(now: nat, seen: Progress, settled: Progress)

  function After(s: State, e: Event, display: Path -> string): State {
    match e
    case Trigger(kind, now) => Triggered(s, kind, now)
    case AddReader(reader) => ReaderAdded(s, reader)
    case Settle => Settled(s)
    case ReportOff(now) => OffReported(s, now)
    case OfRoot(event) => Reported(s, event)
    case Tick(now, seen, settled) => Ticked(s, now, seen, settled, display)
  }

  function Run(s: State, events: seq<Event>, display: Path -> string): State {
    if events == [] then s
    else After(Run(s, events[..|events| - 1], display), events[|events| - 1], display)
  }

  const START := State(None, None, map[], None)

  ghost predicate Sound(s: State) {
    && Showable(s.last)
    && (s.scan.Some? ==> PathsDiffer(s.scan.value.roots))
    && (s.last.Some? && s.last.value.kind.ProjectScan? ==>
          s.last.value.ending.AllDone? || s.last.value.ending.Failed?)
  }

  lemma StepIsSound(s: State, e: Event, display: Path -> string)
    requires Sound(s)
    ensures Sound(After(s, e, display))
  {
    match e
    case OfRoot(event) =>
      if s.scan.Some? {
        HeardMovesOneSlot(s.scan.value.roots, event, event.path);
      }
    case Tick(now, seen, settled) =>
      var folded := Folded(s, seen);
      if folded.pr.Some? {
        EndingIsShowable(Reports(folded.pr.value.readers, settled));
      }
      if s.scan.Some? && AllAnswered(s.scan.value.roots) {
        EndingIsShowable(RootReports(s.scan.value.roots, display));
      }
    case _ =>
  }

  /** Over any run the scan's roots stay distinct, and a failure shown holds a
      first error and counts no more errors than there were steps. */
  lemma {:induction false} RunsAreSound(events: seq<Event>, display: Path -> string)
    ensures Sound(Run(START, events, display))
  {
    if events != [] {
      RunsAreSound(events[..|events| - 1], display);
      StepIsSound(Run(START, events[..|events| - 1], display), events[|events| - 1], display);
    }
  }

  ghost predicate WasReported(events: seq<Event>, name: string, took: nat) {
    exists i, r, k :: 0 <= i < |events| && events[i].Tick?
      && 0 <= k < |events[i].seen(r).steps| && Succeeded(events[i].seen(r).steps[k], name, took)
  }

  /** Every timing the estimate can use was a success some reader reported, at a
      tick of the run. */
  lemma {:induction false} TimingsWereReported(events: seq<Event>, display: Path -> string, name: string)
    requires name in Run(START, events, display).timings
    ensures WasReported(events, name, Run(START, events, display).timings[name])
  {
    var before, e := events[..|events| - 1], events[|events| - 1];
    var s, t := Run(START, before, display), Run(START, events, display).timings;
    assert forall i :: 0 <= i < |before| ==> events[i] == before[i];
    if e.Tick? && s.pr.Some? {
      var pr := s.pr.value;
      var f := Fold(pr.folded, s.timings);
      FoldReadersTimes(f, pr.readers, e.seen, |pr.readers|, name);
      if LatestFresh(f, pr.readers, e.seen, |pr.readers|, name).Some? {
        LatestFreshIsShown(f, pr.readers, e.seen, |pr.readers|, name);
        var r, k :| r in pr.readers && 0 <= k < |e.seen(r).steps| && Succeeded(e.seen(r).steps[k], name, t[name]);
        assert events[|events| - 1] == e;
        return;
      }
    }
    TimingsWereReported(before, display, name);
  }

  // ---- The life of a scan ----

  function RootEvents(events: seq<Event>): seq<RootEvent> {
    if events == [] then []
    else RootEvents(events[..|events| - 1])
         + if events[|events| - 1].OfRoot? then [events[|events| - 1].event] else []
  }

  /** No tick of the run found every root answered. */
  ghost predicate StaysOpen(events: seq<Event>) {
    forall i :: 0 <= i < |events| && events[i].Tick? ==> !AllAnswered(RootsAfter(RootEvents(events[..i])))
  }

  /** An event that does not end a scan at most tells it of a root. */
  lemma OpenScanHears(s: State, e: Event, display: Path -> string)
    requires s.scan.Some? && (e.Tick? ==> !AllAnswered(s.scan.value.roots))
    ensures After(s, e, display).scan == Some(s.scan.value.(
      roots := if e.OfRoot? then Heard(s.scan.value.roots, e.event) else s.scan.value.roots))
  {
  }

  lemma HeardGrows(events: seq<Event>)
    requires events != []
    ensures var e := events[|events| - 1];
      var before := RootsAfter(RootEvents(events[..|events| - 1]));
      RootsAfter(RootEvents(events)) == if e.OfRoot? then Heard(before, e.event) else before
  {
    var before, e := RootEvents(events[..|events| - 1]), events[|events| - 1];
    var heard := RootEvents(events);
    if e.OfRoot? {
      assert heard[..|heard| - 1] == before;
    } else {
      assert heard == before;
    }
  }

  lemma {:induction false} OpenScanHoldsItsRoots(s: State, events: seq<Event>, display: Path -> string)
    requires s.scan.Some? && s.scan.value.roots == [] && StaysOpen(events)
    ensures Run(s, events, display).scan == Some(s.scan.value.(roots := RootsAfter(RootEvents(events))))
  {
    if events != [] {
      var before, e := events[..|events| - 1], events[|events| - 1];
      forall i | 0 <= i < |before| && before[i].Tick?
        ensures !AllAnswered(RootsAfter(RootEvents(before[..i])))
      {
        assert events[i] == before[i] && events[..i] == before[..i];
      }
      OpenScanHoldsItsRoots(s, before, display);
      assert events[|events| - 1].Tick? ==> !AllAnswered(RootsAfter(RootEvents(before)));
      OpenScanHears(Run(s, before, display), e, display);
      HeardGrows(events);
    }
  }

  /** A scan ends at the first tick when no root's history is open, with a
      result that counts the roots registered less those that left, and fails
      exactly when some root's first answer was an error. */
  lemma ScanEndsExactlyWhen(s: State, events: seq<Event>, now: nat, seen: Progress, settled: Progress,
                            display: Path -> string)
    requires s.scan.Some? && s.scan.value.roots == [] && StaysOpen(events)
    ensures var heard := RootEvents(events);
      var after := After(Run(s, events, display), Tick(now, seen, settled), display);
      && (after.scan.None? <==> forall path :: SlotAfter(heard, path) != Pending)
      && (after.scan.None? ==>
            && after.last.Some? && after.last.value.kind == ProjectScan && after.last.value.at == now
            && (after.last.value.ending.Failed? <==>
                  exists path :: SlotAfter(heard, path).Done? && SlotAfter(heard, path).result.Err?)
            && (after.last.value.ending.Failed? ==>
                  after.last.value.ending.failure.total == Joined(heard) - Departed(heard)))
  {
    var heard := RootEvents(events);
    var roots := RootsAfter(heard);
    OpenScanHoldsItsRoots(s, events, display);
    AllAnsweredExactlyWhen(heard);
    if AllAnswered(roots) {
      ScanFailsExactlyWhen(heard, display);
    }
  }

  lemma ScanFailsExactlyWhen(heard: seq<RootEvent>, display: Path -> string)
    requires AllAnswered(RootsAfter(heard))
    ensures var ending := ScanEnding(RootsAfter(heard), display);
      && (ending.Failed? <==> exists path :: SlotAfter(heard, path).Done? && SlotAfter(heard, path).result.Err?)
      && (ending.Failed? ==> ending.failure.total == Joined(heard) - Departed(heard))
  {
    var roots := RootsAfter(heard);
    TotalIsJoinedLessDeparted(heard);
    RootReportsOk(roots, display);
    FailuresInReports(RootReports(roots, display));
    if r :| r in roots && r.result != Some(Ok) {
      ErrorsAreFirstAnswers(heard, r);
    }
    forall path | SlotAfter(heard, path).Done? && SlotAfter(heard, path).result.Err?
      ensures exists r :: r in roots && r.result != Some(Ok)
    {
      RootsFollowTheirHistories(heard, path);
      assert roots[Position(roots, path)] in roots;
    }
  }

  /** The result a root holds is the one its own history gives. */
  lemma ErrorsAreFirstAnswers(heard: seq<RootEvent>, r: Root)
    requires r in RootsAfter(heard) && r.result.Some?
    ensures SlotAfter(heard, r.path) == Done(r.result.value)
  {
    var roots := RootsAfter(heard);
    RootsFollowTheirHistories(heard, r.path);
    var i :| 0 <= i < |roots| && roots[i] == r;
    PositionIs(roots, r.path, i);
  }

  // ---- The life of a refresh ----

  function ReadersIn(events: seq<Event>): seq<Reader> {
    if events == [] then []
    else ReadersIn(events[..|events| - 1])
         + if events[|events| - 1].AddReader? then [events[|events| - 1].reader] else []
  }

  ghost predicate IsSettled(events: seq<Event>) {
    exists j :: 0 <= j < |events| && events[j].Settle?
  }

  /** Nothing ticks once the refresh was settled. */
  ghost predicate NoTickAfterSettling(events: seq<Event>) {
    forall i :: 0 <= i < |events| && events[i].Tick? ==> !IsSettled(events[..i])
  }

  lemma {:induction false} OpenRefreshHolds(s: State, events: seq<Event>, display: Path -> string)
    requires s.pr.Some? && !s.pr.value.settled && NoTickAfterSettling(events)
    ensures var pr := Run(s, events, display).pr;
      pr.Some? && pr.value.readers == s.pr.value.readers + ReadersIn(events) && (pr.value.settled <==> IsSettled(events))
  {
    if events != [] {
      var before, e := events[..|events| - 1], events[|events| - 1];
      forall i | 0 <= i < |before| && before[i].Tick?
        ensures !IsSettled(before[..i])
      {
        assert events[i] == before[i] && events[..i] == before[..i];
      }
      OpenRefreshHolds(s, before, display);
      assert events[|events| - 1].Tick? ==> !IsSettled(before);
      SettledGrows(events);
      OpenRefreshHears(Run(s, before, display), e, display);
    }
  }

  lemma SettledGrows(events: seq<Event>)
    requires events != []
    ensures IsSettled(events) <==> IsSettled(events[..|events| - 1]) || events[|events| - 1].Settle?
  {
    var before := events[..|events| - 1];
    assert forall j :: 0 <= j < |before| ==> before[j] == events[j];
  }

  lemma OpenRefreshHears(s: State, e: Event, display: Path -> string)
    requires s.pr.Some? && (e.Tick? ==> !s.pr.value.settled)
    ensures var pr := After(s, e, display).pr;
      && pr.Some? && (pr.value.settled <==> s.pr.value.settled || e.Settle?)
      && pr.value.readers == s.pr.value.readers + if e.AddReader? then [e.reader] else []
  {
  }

  /** A refresh ends at the first tick after it was settled and not before, with the
      ending read from every batch that joined it, unless a scan ends at that tick
      too, whose result then stands. */
  lemma RefreshEndsExactlyWhen(s: State, events: seq<Event>, now: nat, seen: Progress, settled: Progress,
                               display: Path -> string)
    requires s.pr.Some? && !s.pr.value.settled && NoTickAfterSettling(events)
    ensures var before := Run(s, events, display);
      var after := After(before, Tick(now, seen, settled), display);
      && (after.pr.None? <==> IsSettled(events))
      && (after.pr.None? && after.scan == before.scan ==>
            after.last == Some(LastResult(PrStatus, now, PrEnding(s.pr.value.readers + ReadersIn(events), settled))))
  {
    OpenRefreshHolds(s, events, display);
  }

  // ---- What each event leaves alone ----

  /** Only ticks and the report that checks are off change the last result, only ticks
      the timings, and a trigger joins what is running. */
  lemma EventsChange(s: State, e: Event, display: Path -> string)
    ensures var after := After(s, e, display);
      match e
      case ReportOff(now) => after == s.(last := Some(LastResult(PrStatus, now, Off)))
      case Tick(now, seen, settled) =>
        after.pr.Some? == s.pr.Some? && after.scan.Some? == s.scan.Some? ==> after.last == s.last
      case Trigger(kind, now) =>
        && after.last == s.last && after.timings == s.timings
        && (if kind.PrStatus? then after.scan == s.scan && after.pr.Some? && (s.pr.Some? ==> after.pr == s.pr)
                                   && (s.pr.None? ==> after.pr == Some(PrActivity(now, [], {}, false)))
            else after.pr == s.pr && after.scan.Some? && (s.scan.Some? ==> after.scan == s.scan)
                 && (s.scan.None? ==> after.scan == Some(ScanActivity(now, []))))
      case OfRoot(_) => after.pr == s.pr && after.last == s.last && after.timings == s.timings
      case _ => after.scan == s.scan && after.last == s.last && after.timings == s.timings
  {
  }
}
