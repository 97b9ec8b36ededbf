/** The refreshes and scans the status row reports on. */
module Activities {
  import opened Options
  import opened Estimates
  import opened ScanRoots

  datatype JobEnd = Returned | Panicked | Cancelled

  datatype Snapshot = Snapshot(steps: seq<Step>, end: Option<JobEnd>)

  type Reader = nat

  /** What every reader shows when it is asked. */
  type Progress = Reader -> Snapshot

  datatype Kind = PrStatus | ProjectScan

  datatype Failure = Failure(total: nat, failures: seq<(string, string)>)

  datatype Ending = AllDone | Failed(failure: Failure) | NothingToCheck | Off

  datatype LastResult = LastResult(kind: Kind, at: nat, ending: Ending)

  datatype PrActivity = PrActivity(started: nat, readers: seq<Reader>, folded: set<(nat, string)>, settled: bool)

  datatype ScanActivity = ScanActivity(started: nat, roots: seq<Root>)

  datatype State = State(pr: Option<PrActivity>, scan: Option<ScanActivity>, timings: Timings, last: Option<LastResult>)

  // ---- Folding finished steps into the timings ----

  datatype Fold = Fold(folded: set<(nat, string)>, timings: Timings)

  /** A step that ended is folded once for its reader; only success is timed. */
  function FoldStep(f: Fold, reader: nat, step: Step): Fold {
    if step.outcome.None? || step.took.None? || (reader, step.name) in f.folded then f
    else Fold(f.folded + {(reader, step.name)},
              if step.outcome.value.Ok? then f.timings[step.name := step.took.value] else f.timings)
  }

  function FoldSteps(f: Fold, reader: nat, steps: seq<Step>): Fold {
    if steps == [] then f
    else FoldStep(FoldSteps(f, reader, steps[..|steps| - 1]), reader, steps[|steps| - 1])
  }

  /** Fold the first n readers. */
  function FoldReaders(f: Fold, readers: seq<Reader>, seen: Progress, n: nat): Fold
    requires n <= |readers|
  {
    if n == 0 then f
    else FoldSteps(FoldReaders(f, readers, seen, n - 1), n - 1, seen(readers[n - 1]).steps)
  }

  // ---- How a refresh and a scan end ----

  type Report = (string, Outcome)

  /** What becomes of steps a batch left unfinished. */
  function Unfinished(end: Option<JobEnd>): Outcome {
    match end
    case Some(Panicked) => Err("worker panicked")
    case Some(Cancelled) => Err("timed out")
    case _ => Ok
  }

  function StepReport(step: Step, end: Option<JobEnd>): Report {
    (step.name, if step.outcome.Some? then step.outcome.value else Unfinished(end))
  }

  function StepReports(steps: seq<Step>, end: Option<JobEnd>): seq<Report> {
    if steps == [] then []
    else StepReports(steps[..|steps| - 1], end) + [StepReport(steps[|steps| - 1], end)]
  }

  /** A batch that died before declaring its steps counts as one failure. */
  function Lost(snapshot: Snapshot): seq<Report> {
    if snapshot.steps == [] && snapshot.end == Some(Panicked)
    then [("PR lookup", Err("worker panicked"))]
    else []
  }

  function Reports(readers: seq<Reader>, seen: Progress): seq<Report> {
    if readers == [] then []
    else
      var snapshot := seen(readers[|readers| - 1]);
      Reports(readers[..|readers| - 1], seen) + Lost(snapshot) + StepReports(snapshot.steps, snapshot.end)
  }

  function FailuresIn(reports: seq<Report>): seq<(string, string)> {
    if reports == [] then []
    else (match reports[0].1 case Ok => [] case Err(message) => [(reports[0].0, message)])
         + FailuresIn(reports[1..])
  }

  function EndingOf(reports: seq<Report>): Ending {
    var failures := FailuresIn(reports);
    if failures == [] then AllDone else Failed(Failure(|reports|, failures))
  }

  function PrEnding(readers: seq<Reader>, seen: Progress): Ending {
    var reports := Reports(readers, seen);
    if reports == [] then NothingToCheck else EndingOf(reports)
  }

  function RootReports(roots: seq<Root>, display: Path -> string): (r: seq<Report>)
    requires AllAnswered(roots)
    ensures |r| == |roots|
  {
    if roots == [] then []
    else [(display(roots[0].path), roots[0].result.value)] + RootReports(roots[1..], display)
  }

  function ScanEnding(roots: seq<Root>, display: Path -> string): Ending
    requires AllAnswered(roots)
  {
    EndingOf(RootReports(roots, display))
  }

  // ---- One tick ----

  function Folded(s: State, seen: Progress): State {
    match s.pr
    case None => s
    case Some(pr) =>
      var f := FoldReaders(Fold(pr.folded, s.timings), pr.readers, seen, |pr.readers|);
      s.(pr := Some(pr.(folded := f.folded)), timings := f.timings)
  }

  function PrEnded(s: State, now: nat, seen: Progress): State {
    if s.pr.Some? && s.pr.value.settled
    then s.(pr := None, last := Some(LastResult(PrStatus, now, PrEnding(s.pr.value.readers, seen))))
    else s
  }

  function ScanEnded(s: State, now: nat, display: Path -> string): State {
    if s.scan.Some? && AllAnswered(s.scan.value.roots)
    then s.(scan := None, last := Some(LastResult(ProjectScan, now, ScanEnding(s.scan.value.roots, display))))
    else s
  }

  /** The readers are asked twice: for the fold, and for how a refresh ended. */
  function Ticked(s: State, now: nat, seen: Progress, settled: Progress, display: Path -> string): State {
    ScanEnded(PrEnded(Folded(s, seen), now, settled), now, display)
  }

  function Triggered(s: State, kind: Kind, now: nat): State {
    match kind
    case PrStatus =>
      if s.pr.Some? then s else s.(pr := Some(PrActivity(now, [], {}, false)))
    case ProjectScan =>
      if s.scan.Some? then s else s.(scan := Some(ScanActivity(now, [])))
  }

  function ReaderAdded(s: State, reader: Reader): State {
    if s.pr.None? then s else s.(pr := Some(s.pr.value.(readers := s.pr.value.readers + [reader])))
  }

  function Settled(s: State): State {
    if s.pr.None? then s else s.(pr := Some(s.pr.value.(settled := true)))
  }

  function OffReported(s: State, now: nat): State {
    s.(last := Some(LastResult(PrStatus, now, Off)))
  }

  /** A running scan hears of a root; without one nothing happens. */
  function Reported(s: State, e: RootEvent): State {
    if s.scan.None? then s
    else s.(scan := Some(s.scan.value.(roots := Heard(s.scan.value.roots, e))))
  }

  // ---- The failure line ----

  datatype FailureLine = FailureLine(kind: Kind, failed: nat, total: nat, first: string, tooltip: seq<(string, string)>)

  /** A failed result always has a first error to show, and no more errors than
      steps. */
  predicate Showable(last: Option<LastResult>) {
    last.Some? && last.value.ending.Failed? ==>
      1 <= |last.value.ending.failure.failures| <= last.value.ending.failure.total
  }

  class Activities {
    const display: Path -> string
    var pr: Option<PrActivity>
    var scan: Option<ScanActivity>
    var timings: Timings
    var last: Option<LastResult>

    function View(): State
      reads this
    {
      State(pr, scan, timings, last)
    }

    constructor (display: Path -> string)
      ensures View() == State(None, None, map[], None) && this.display == display
    {
      this.display := display;
      pr, scan, timings, last := None, None, map[], None;
    }

    /** Start an activity, or join the one running. */
    method Trigger(kind: Kind, now: nat)
      modifies this
      ensures View() == Triggered(old(View()), kind, now)
    {
      match kind
      case PrStatus =>
        if pr.None? { pr := Some(PrActivity(now, [], {}, false)); }
      case ProjectScan =>
        if scan.None? { scan := Some(ScanActivity(now, [])); }
    }

    method AddPrReader(reader: Reader)
      modifies this
      ensures View() == ReaderAdded(old(View()), reader)
    {
      if pr.Some? { pr := Some(pr.value.(readers := pr.value.readers + [reader])); }
    }

    method PrSettled()
      modifies this
      ensures View() == Settled(old(View()))
    {
      if pr.Some? { pr := Some(pr.value.(settled := true)); }
    }

    method ReportOff(now: nat)
      modifies this
      ensures View() == OffReported(old(View()), now)
    {
      last := Some(LastResult(PrStatus, now, Off));
    }

    method ScanStarted(root: Path)
      modifies this
      ensures View() == Reported(old(View()), Begun(root))
    {
      if scan.Some? && Position(scan.value.roots, root) == |scan.value.roots| {
        scan := Some(scan.value.(roots := scan.value.roots + [Root(root, None)]));
      }
    }

    method ScanFinished(root: Path, result: Outcome)
      modifies this
      ensures View() == Reported(old(View()), Answered(root, result))
    {
      if scan.Some? {
        var roots, i := scan.value.roots, Position(scan.value.roots, root);
        if i < |roots| && roots[i].result.None? {
          scan := Some(scan.value.(roots := roots[i := Root(root, Some(result))]));
        }
      }
    }

    method ScanLeft(root: Path)
      modifies this
      ensures View() == Reported(old(View()), Gone(root))
    {
      if scan.Some? {
        scan := Some(scan.value.(roots := Left(scan.value.roots, root)));
      }
    }

    method FoldReader(reader: nat, steps: seq<Step>)
      requires pr.Some?
      modifies this
      ensures var f := FoldSteps(Fold(old(pr).value.folded, old(timings)), reader, steps);
        View() == old(View()).(pr := Some(old(pr).value.(folded := f.folded)), timings := f.timings)
    {
      for i := 0 to |steps|
        invariant pr.Some?
        invariant var f := FoldSteps(Fold(old(pr).value.folded, old(timings)), reader, steps[..i]);
          View() == old(View()).(pr := Some(old(pr).value.(folded := f.folded)), timings := f.timings)
      {
        assert steps[..i + 1][..i] == steps[..i];
        var step := steps[i];
        if step.outcome.Some? && step.took.Some? && (reader, step.name) !in pr.value.folded {
          pr := Some(pr.value.(folded := pr.value.folded + {(reader, step.name)}));
          if step.outcome.value.Ok? {
            timings := timings[step.name := step.took.value];
          }
        }
      }
      assert steps[..|steps|] == steps;
    }

    /** Fold newly finished steps and end what has nothing left to wait for. */
    method Tick(now: nat, seen: Progress, settled: Progress)
      modifies this
      ensures View() == Ticked(old(View()), now, seen, settled, display)
    {
      if pr.Some? {
        for i := 0 to |pr.value.readers|
          invariant pr.Some? && pr.value.readers == old(pr).value.readers
          invariant var f := FoldReaders(Fold(old(pr).value.folded, old(timings)), pr.value.readers, seen, i);
            View() == old(View()).(pr := Some(old(pr).value.(folded := f.folded)), timings := f.timings)
        {
          FoldReader(i, seen(pr.value.readers[i]).steps);
        }
      }
      if pr.Some? && pr.value.settled {
        var ending := PrOutcome(pr.value.readers, settled);
        last := Some(LastResult(PrStatus, now, ending));
        pr := None;
      }
      if scan.Some? && AllAnswered(scan.value.roots) {
        last := Some(LastResult(ProjectScan, now, ScanEnding(scan.value.roots, display)));
        scan := None;
      }
    }

    /** The failure arm of the status row. */
    method FailedStatus() returns (line: Option<FailureLine>)
      requires Showable(last)
      ensures line.Some? <==> pr.None? && scan.None? && last.Some? && last.value.ending.Failed?
      ensures line.Some? ==>
        var failure := last.value.ending.failure;
        && line.value.kind == last.value.kind
        && 1 <= line.value.failed == |failure.failures| <= line.value.total == failure.total
        && line.value.tooltip == failure.failures && line.value.first == failure.failures[0].1
    {
      line := None;
      if pr.None? && scan.None? && last.Some? && last.value.ending.Failed? {
        var f := last.value.ending.failure;
        line := Some(FailureLine(last.value.kind, |f.failures|, f.total, f.failures[0].1, f.failures));
      }
    }
  }

  /** How a settled refresh ended, read from its batches. */
  method PrOutcome(readers: seq<Reader>, seen: Progress) returns (ending: Ending)
    ensures ending == PrEnding(readers, seen)
  {
    var reports: seq<Report> := [];
    for i := 0 to |readers|
      invariant reports == Reports(readers[..i], seen)
    {
      assert readers[..i + 1][..i] == readers[..i];
      var snapshot := seen(readers[i]);
      if snapshot.steps == [] && snapshot.end == Some(Panicked) {
        reports := reports + [("PR lookup", Err("worker panicked"))];
      }
      ghost var before := reports;
      for k := 0 to |snapshot.steps|
        invariant reports == before + StepReports(snapshot.steps[..k], snapshot.end)
      {
        assert snapshot.steps[..k + 1][..k] == snapshot.steps[..k];
        reports := reports + [StepReport(snapshot.steps[k], snapshot.end)];
      }
      assert snapshot.steps[..|snapshot.steps|] == snapshot.steps;
    }
    assert readers[..|readers|] == readers;
    ending := if reports == [] then NothingToCheck else EndingOf(reports);
  }
}
