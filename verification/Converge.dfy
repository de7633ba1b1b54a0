/** The convergence check (internal/runner/converge.go, internal/runner/convergeall.go):
    arming a baseline, waiting out an observation window, discarding a window during
    which the controller pod was replaced, and the shared window of RunConvergeAll. The
    cluster is an oracle; durations and instants are integers, in nanoseconds. */
module Converge {
  import opened Json
  import opened Text

  const MAX_RESTART_RETRIES := 2
  const DEFAULT_POLL := 60_000_000_000

  datatype Problem =
    | AtProviderChanged(fields: seq<string>)
    | NewEvents(n: int)
    | UpdateCalls(calls: nat)
    | GenerationChanged(before: int, after: int)
    | NotReady

  datatype Diagnostic =
    | NotReadyAtBaseline
    | PreCheckFailed
    | Restarted(attempt: nat, was: string, now: string)
    | SpoiledEveryTime(attempts: nat, was: string, now: string)
    | LogUnavailable
    | LogSilent(window: int)
    | Found(problem: Problem)

  datatype Message = Skipped | Stable | LoopDetected | NotInSteadyState | Inconclusive

  datatype Verdict = Verdict(passed: bool, message: Message, diagnostics: seq<Diagnostic>)

  datatype Baseline = Baseline(snapshot: Json, events: int, gen: int, notes: seq<Diagnostic>, armedAt: nat,
                               podName: string)

  // ---------- arming ----------

  /** What the reads behind convergeArm's gates return; None is a failed read. */
  datatype Gates = Gates(
    skip: bool, resolved: bool, settled: Option<bool>, synced: Option<(bool, int)>, ready: Option<bool>,
    pod: Option<(bool, string)>, baseline: Option<(Json, int)>, armedAt: nat)

  datatype Arm = ArmFailed | Early(verdict: Verdict) | Armed(baseline: Baseline)

  const UNSETTLED: Verdict := Verdict(false, NotInSteadyState, [PreCheckFailed])

  /** Every gate but readiness must pass for a window to open; a gate that fails outright is
      an error, and one that does not settle is an early verdict that never passes. */
  function ConvergeArm(g: Gates): (r: Arm)
    ensures r.Early? ==> !r.verdict.passed && (r.verdict.message == Skipped <==> g.skip)
    ensures g.skip ==> r.Early?
    ensures r.Armed? <==>
      && !g.skip && g.resolved && g.settled == Some(true) && g.synced.Some? && g.synced.value.0
      && g.ready.Some? && g.pod.Some? && g.pod.value.0 && g.baseline.Some?
    ensures r.Armed? ==> (NotReadyAtBaseline in r.baseline.notes <==> g.ready == Some(false))
    ensures r.Armed? ==>
      && !g.skip && g.settled == Some(true) && g.synced == Some((true, r.baseline.gen))
      && g.pod == Some((true, r.baseline.podName)) && g.baseline == Some((r.baseline.snapshot, r.baseline.events))
      && RestartNotes(r.baseline.notes) == [] && r.baseline.armedAt == g.armedAt
  {
    if g.skip then Early(Verdict(false, Skipped, []))
    else if !g.resolved || g.settled.None? then ArmFailed
    else if !g.settled.value then Early(UNSETTLED)
    else if g.synced.None? then ArmFailed
    else if !g.synced.value.0 then Early(UNSETTLED)
    else if g.ready.None? || g.pod.None? then ArmFailed
    else if !g.pod.value.0 then Early(UNSETTLED)
    else if g.baseline.None? then ArmFailed
    else
      var notes := if g.ready.value then [] else [NotReadyAtBaseline];
      assert RestartNotes(notes) == [];
      Armed(Baseline(g.baseline.value.0, g.baseline.value.1, g.synced.value.1, notes, g.armedAt, g.pod.value.1))
  }

  /** A gate that does not hold ends the check as unsettled, and only a failed read fails it. */
  lemma ArmMeans(g: Gates)
    ensures ConvergeArm(g).Early? && !g.skip ==>
      && ConvergeArm(g).verdict == UNSETTLED
      && (g.settled == Some(false) || (g.synced.Some? && !g.synced.value.0) || (g.pod.Some? && !g.pod.value.0))
    ensures ConvergeArm(g).ArmFailed? ==>
      !g.resolved || g.settled.None? || g.synced.None? || g.ready.None? || g.pod.None? || g.baseline.None?
  { }

  predicate IsRestart(d: Diagnostic) { d.Restarted? }

  function RestartNotes(ds: seq<Diagnostic>): seq<Diagnostic> { Select(ds, IsRestart) }

  // ---------- the verdict on one window ----------

  datatype LogReading = LogReading(failed: bool, calls: nat, lines: nat)

  datatype Outcome = Outcome(snapshot: Json, events: int, gen: int, ready: bool)

  /** Nothing moved, no event was counted, the generation held, every ready condition is
      true, and the log, where it could be read at all, shows no Update() call. */
  predicate Quiet(diff: seq<string>, b: Baseline, after: Outcome, log: LogReading, window: int) {
    && diff == [] && after.events <= b.events && after.gen == b.gen && after.ready
    && (log.failed || (window > 0 && log.lines == 0) || log.calls == 0)
  }

  predicate SignsOfALoop(diff: seq<string>, b: Baseline, after: Outcome, log: LogReading, window: int) {
    diff != [] || after.events > b.events || (!log.failed && !(window > 0 && log.lines == 0) && log.calls > 0)
  }

  method BuildConvergeResult(diff: seq<string>, b: Baseline, after: Outcome, log: LogReading, window: int)
    returns (r: Verdict)
    ensures r == VerdictOn(diff, b, after, log, window)
  {
    var notes, problems: seq<Problem>, passed, loopSignal := b.notes, [], true, false;
    if |diff| > 0 {
      passed, loopSignal := false, true;
      problems := problems + [AtProviderChanged(diff)];
    }
    if after.events > b.events {
      passed, loopSignal := false, true;
      problems := problems + [NewEvents(after.events - b.events)];
    }
    assert problems == DriftAndEvents(diff, b, after);
    if log.failed {
      notes := notes + [LogUnavailable];
    } else if window > 0 && log.lines == 0 {
      notes := notes + [LogSilent(window)];
    } else if log.calls > 0 {
      passed, loopSignal := false, true;
      problems := problems + [UpdateCalls(log.calls)];
    }
    assert notes == b.notes + LogNotes(log, window);
    assert problems == DriftAndEvents(diff, b, after) + LogProblems(log, window);
    assert loopSignal <==> problems != [];
    if after.gen != b.gen {
      passed := false;
      problems := problems + [GenerationChanged(b.gen, after.gen)];
    }
    if !after.ready {
      passed := false;
      problems := problems + [NotReady];
    }
    var message := if passed then Stable else if loopSignal then LoopDetected else NotInSteadyState;
    assert problems == ProblemsOf(diff, b, after, log, window);
    return Verdict(passed, message, notes + AsFound(problems));
  }

  function AsFound(ps: seq<Problem>): (r: seq<Diagnostic>)
    ensures |r| == |ps| && forall i :: 0 <= i < |ps| ==> r[i] == Found(ps[i])
  { seq(|ps|, i requires 0 <= i < |ps| => Found(ps[i])) }

  function LogNotes(log: LogReading, window: int): seq<Diagnostic> {
    if log.failed then [LogUnavailable] else if window > 0 && log.lines == 0 then [LogSilent(window)] else []
  }

  function DriftAndEvents(diff: seq<string>, b: Baseline, after: Outcome): seq<Problem> {
    (if diff != [] then [AtProviderChanged(diff)] else []) +
    (if after.events > b.events then [NewEvents(after.events - b.events)] else [])
  }

  function LogProblems(log: LogReading, window: int): seq<Problem> {
    if LogNotes(log, window) == [] && log.calls > 0 then [UpdateCalls(log.calls)] else []
  }

  function Unsettled(b: Baseline, after: Outcome): seq<Problem> {
    (if after.gen != b.gen then [GenerationChanged(b.gen, after.gen)] else []) +
      (if !after.ready then [NotReady] else [])
  }

  function ProblemsOf(diff: seq<string>, b: Baseline, after: Outcome, log: LogReading, window: int): seq<Problem> {
    DriftAndEvents(diff, b, after) + LogProblems(log, window) + Unsettled(b, after)
  }

  function VerdictOn(diff: seq<string>, b: Baseline, after: Outcome, log: LogReading, window: int): (r: Verdict)
    ensures r.passed <==> Quiet(diff, b, after, log, window)
    ensures r.message == LoopDetected <==> SignsOfALoop(diff, b, after, log, window)
    ensures r.message == Stable <==> r.passed
  {
    var problems := ProblemsOf(diff, b, after, log, window);
    Verdict(problems == [],
            if problems == [] then Stable
            else if SignsOfALoop(diff, b, after, log, window) then LoopDetected
            else NotInSteadyState,
            b.notes + LogNotes(log, window) + AsFound(problems))
  }

  lemma {:induction false} FoundHasNoRestart(ps: seq<Problem>)
    ensures RestartNotes(AsFound(ps)) == []
  {
    if ps == [] {
    } else {
      assert AsFound(ps)[1..] == AsFound(ps[1..]);
      FoundHasNoRestart(ps[1..]);
    }
  }

  /** A verdict reports every note its baseline carried, and adds no restart of its own. */
  lemma VerdictKeepsNotes(diff: seq<string>, b: Baseline, after: Outcome, log: LogReading, window: int)
    ensures RestartNotes(VerdictOn(diff, b, after, log, window).diagnostics) == RestartNotes(b.notes)
  {
    var problems := ProblemsOf(diff, b, after, log, window);
    SelectConcat(b.notes + LogNotes(log, window), AsFound(problems), IsRestart);
    SelectConcat(b.notes, LogNotes(log, window), IsRestart);
    FoundHasNoRestart(problems);
    assert RestartNotes(LogNotes(log, window)) == [];
  }

  /** Each problem a verdict reports is one the window showed, with the values it showed. */
  lemma ProblemsAreReal(diff: seq<string>, b: Baseline, after: Outcome, log: LogReading, window: int, p: Problem)
    ensures p in ProblemsOf(diff, b, after, log, window) <==>
      match p
      case AtProviderChanged(fields) => fields == diff && diff != []
      case NewEvents(n) => n > 0 && b.events + n == after.events
      case UpdateCalls(calls) => !log.failed && (window <= 0 || log.lines > 0) && calls == log.calls && calls > 0
      case GenerationChanged(was, now) => was != now && was == b.gen && now == after.gen
      case NotReady => !after.ready
    ensures Found(p) in VerdictOn(diff, b, after, log, window).diagnostics <==>
      Found(p) in b.notes || p in ProblemsOf(diff, b, after, log, window)
    ensures LogUnavailable in VerdictOn(diff, b, after, log, window).diagnostics <==>
      LogUnavailable in b.notes || log.failed
    ensures LogSilent(window) in VerdictOn(diff, b, after, log, window).diagnostics <==>
      LogSilent(window) in b.notes || (!log.failed && window > 0 && log.lines == 0)
  {
    var ps := ProblemsOf(diff, b, after, log, window);
    assert p in ps <==>
      p in DriftAndEvents(diff, b, after) || p in LogProblems(log, window) || p in Unsettled(b, after);
    assert Found(p) in AsFound(ps) <==> p in ps by {
      if p in ps {
        var i :| 0 <= i < |ps| && ps[i] == p;
        assert AsFound(ps)[i] == Found(p);
      }
    }
  }

  /** The loop headline is given exactly for drift, new events or Update() calls, whatever
      else is wrong; a generation or readiness problem alone never earns it. */
  lemma LoopMeans(diff: seq<string>, b: Baseline, after: Outcome, log: LogReading, window: int)
    ensures VerdictOn(diff, b, after, log, window).message == LoopDetected <==>
      exists p :: p in ProblemsOf(diff, b, after, log, window)
                    && (p.AtProviderChanged? || p.NewEvents? || p.UpdateCalls?)
  {
    var ps := ProblemsOf(diff, b, after, log, window);
    ProblemsAreReal(diff, b, after, log, window, AtProviderChanged(diff));
    ProblemsAreReal(diff, b, after, log, window, NewEvents(after.events - b.events));
    ProblemsAreReal(diff, b, after, log, window, UpdateCalls(log.calls));
    forall p | p in ps && (p.AtProviderChanged? || p.NewEvents? || p.UpdateCalls?)
      ensures SignsOfALoop(diff, b, after, log, window)
    {
      ProblemsAreReal(diff, b, after, log, window, p);
    }
  }

  // ---------- restarts ----------

  /** What the cluster answers at each attempt: the controller pod's name, the re-arming
      reads, the post-wait reads and the log of the window waited out. */
  datatype Cluster = Cluster(
    pod: nat -> Option<string>, gates: nat -> Gates, outcome: nat -> Option<Outcome>, log: nat -> LogReading,
    diff: (Json, Json) -> Option<seq<string>>)

  /** How a check ended: a failed read, a re-arming that was itself a verdict, every window
      spoiled, or a verdict measured over the last window. */
  datatype Ending =
    | Failed
    | EarlyExit(verdict: Verdict)
    | Spoiled(verdict: Verdict)
    | Measured(verdict: Verdict, over: Baseline, attempt: nat)

  predicate Replaced(b: Baseline, pod: Option<string>) { b.podName != "" && pod.Some? && pod.value != b.podName }

  function Carried(b: Baseline, rearmed: Baseline, restarts: nat, now: string): Baseline {
    rearmed.(notes := b.notes + rearmed.notes + [Restarted(restarts + 1, b.podName, now)])
  }

  function Attempt(c: Cluster, poll: int, b: Baseline, waitDur: int, restarts: nat): Ending
    decreases MAX_RESTART_RETRIES + 1 - restarts
  {
    var pod := c.pod(restarts);
    if b.podName != "" && pod.None? then Failed
    else if Replaced(b, pod) then
      if restarts >= MAX_RESTART_RETRIES then
        Spoiled(Verdict(false, Inconclusive, [SpoiledEveryTime(restarts + 1, b.podName, pod.value)]))
      else
        match ConvergeArm(c.gates(restarts))
        case ArmFailed => Failed
        case Early(v) => EarlyExit(v)
        case Armed(rearmed) =>
          Attempt(c, poll, Carried(b, rearmed, restarts, pod.value), ConvergeWait(poll), restarts + 1)
    else
      var after := c.outcome(restarts);
      if after.None? then Failed
      else
        var diff := c.diff(b.snapshot, after.value.snapshot);
        if diff.None? then Failed
        else Measured(VerdictOn(diff.value, b, after.value, c.log(restarts), waitDur), b, restarts)
  }

  /** One note for each discarded window, numbered and naming the pods, oldest first. */
  predicate NotesNumbered(notes: seq<Diagnostic>, from: nat) {
    forall i | 0 <= i < |notes| ::
      notes[i].Restarted? && notes[i].attempt == from + i + 1 && notes[i].was != notes[i].now
  }

  lemma NotesStep(notes: seq<Diagnostic>, before: seq<Diagnostic>, from: nat, was: string, now: string)
    requires was != now && |notes| > |before| && notes[..|before| + 1] == before + [Restarted(from + 1, was, now)]
    requires NotesNumbered(notes[|before| + 1..], from + 1)
    ensures notes[..|before|] == before && NotesNumbered(notes[|before|..], from)
  {
    assert notes[..|before|] == notes[..|before| + 1][..|before|];
    assert notes[|before|] == notes[..|before| + 1][|before|];
    var later := notes[|before|..];
    forall i | 0 <= i < |later|
      ensures later[i].Restarted? && later[i].attempt == from + i + 1 && later[i].was != later[i].now
    {
      if i > 0 { assert later[i] == notes[|before| + 1..][i - 1]; }
    }
  }

  /** From any attempt on: a measured verdict stands over a window whose controller pod was
      the baseline's own at the identity check, within the retry bound, and still carries
      one restart note per window discarded since, after those it started with. */
  lemma {:induction false} MeasuredMeans(c: Cluster, poll: int, b: Baseline, waitDur: int, restarts: nat)
    requires restarts <= MAX_RESTART_RETRIES && Attempt(c, poll, b, waitDur, restarts).Measured?
    ensures var e := Attempt(c, poll, b, waitDur, restarts);
      && restarts <= e.attempt <= MAX_RESTART_RETRIES
      && !Replaced(e.over, c.pod(e.attempt))
      && (e.over.podName != "" ==> c.pod(e.attempt) == Some(e.over.podName))
      && var notes, before := RestartNotes(e.verdict.diagnostics), RestartNotes(b.notes);
      && |notes| == |before| + e.attempt - restarts && notes[..|before|] == before
      && NotesNumbered(notes[|before|..], restarts)
    decreases MAX_RESTART_RETRIES + 1 - restarts
  {
    var e, pod := Attempt(c, poll, b, waitDur, restarts), c.pod(restarts);
    var before := RestartNotes(b.notes);
    if Replaced(b, pod) {
      var rearmed := ConvergeArm(c.gates(restarts)).baseline;
      var next := Carried(b, rearmed, restarts, pod.value);
      MeasuredMeans(c, poll, next, ConvergeWait(poll), restarts + 1);
      CarriedNotes(b, rearmed, restarts, pod.value);
      NotesStep(RestartNotes(e.verdict.diagnostics), before, restarts, b.podName, pod.value);
    } else {
      var after := c.outcome(restarts).value;
      VerdictKeepsNotes(c.diff(b.snapshot, after.snapshot).value, b, after, c.log(restarts), waitDur);
      assert RestartNotes(e.verdict.diagnostics)[|before|..] == [];
    }
  }

  lemma CarriedNotes(b: Baseline, rearmed: Baseline, restarts: nat, now: string)
    requires RestartNotes(rearmed.notes) == []
    ensures RestartNotes(Carried(b, rearmed, restarts, now).notes)
         == RestartNotes(b.notes) + [Restarted(restarts + 1, b.podName, now)]
  {
    SelectConcat(b.notes + rearmed.notes, [Restarted(restarts + 1, b.podName, now)], IsRestart);
    SelectConcat(b.notes, rearmed.notes, IsRestart);
  }

  /** RunConverge from its own first arming. */
  function RunConverge(c: Cluster, first: Gates, poll: int): Ending {
    match ConvergeArm(first)
    case ArmFailed => Failed
    case Early(v) => EarlyExit(v)
    case Armed(b) => Attempt(c, poll, b, ConvergeWait(poll), 0)
  }

  predicate Passes(e: Ending) { !e.Failed? && e.verdict.passed }

  lemma {:induction false} OnlyMeasuredPasses(c: Cluster, poll: int, b: Baseline, waitDur: int, restarts: nat)
    ensures Passes(Attempt(c, poll, b, waitDur, restarts)) ==> Attempt(c, poll, b, waitDur, restarts).Measured?
    decreases MAX_RESTART_RETRIES + 1 - restarts
  {
    if Replaced(b, c.pod(restarts)) && restarts < MAX_RESTART_RETRIES {
      var arm := ConvergeArm(c.gates(restarts));
      if arm.Armed? {
        var next := Carried(b, arm.baseline, restarts, c.pod(restarts).value);
        OnlyMeasuredPasses(c, poll, next, ConvergeWait(poll), restarts + 1);
      }
    }
  }

  /** A check that passes passed on a measured window whose pod was never seen to change,
      after at most two discarded ones, each of which it still reports. */
  lemma PassIsMeasured(c: Cluster, first: Gates, poll: int)
    requires Passes(RunConverge(c, first, poll))
    ensures var e := RunConverge(c, first, poll);
      && e.Measured? && e.attempt <= MAX_RESTART_RETRIES && !Replaced(e.over, c.pod(e.attempt))
      && var notes := RestartNotes(e.verdict.diagnostics);
      && |notes| == e.attempt && NotesNumbered(notes, 0)
  {
    var b := ConvergeArm(first).baseline;
    OnlyMeasuredPasses(c, poll, b, ConvergeWait(poll), 0);
    MeasuredMeans(c, poll, b, ConvergeWait(poll), 0);
    var notes := RestartNotes(RunConverge(c, first, poll).verdict.diagnostics);
    assert notes[0..] == notes;
  }

  /** A measured verdict passes exactly when its own window was quiet. */
  lemma {:induction false} MeasuredPassIsQuiet(c: Cluster, poll: int, b: Baseline, waitDur: int, restarts: nat)
    requires Attempt(c, poll, b, waitDur, restarts).Measured?
    ensures var e := Attempt(c, poll, b, waitDur, restarts);
      var window := if e.attempt == restarts then waitDur else ConvergeWait(poll);
      var after := c.outcome(e.attempt);
      && e.attempt >= restarts && after.Some? && c.diff(e.over.snapshot, after.value.snapshot).Some?
      && (e.verdict.passed <==>
            Quiet(c.diff(e.over.snapshot, after.value.snapshot).value, e.over, after.value, c.log(e.attempt), window))
    decreases MAX_RESTART_RETRIES + 1 - restarts
  {
    if Replaced(b, c.pod(restarts)) {
      var rearmed := ConvergeArm(c.gates(restarts)).baseline;
      var next := Carried(b, rearmed, restarts, c.pod(restarts).value);
      MeasuredPassIsQuiet(c, poll, next, ConvergeWait(poll), restarts + 1);
    }
  }

  // ---------- exactly which windows are measured ----------

  /** The baseline in force at an attempt, but for the notes it carries. */
  function InForce(c: Cluster, b: Baseline, restarts: nat, attempt: nat): Arm {
    if attempt <= restarts then Armed(b) else ConvergeArm(c.gates(attempt - 1))
  }

  /** The attempt's window was spoiled: its baseline stood on a pod that is there no more. */
  predicate SpoiledAt(c: Cluster, b: Baseline, restarts: nat, attempt: nat) {
    var arm := InForce(c, b, restarts, attempt);
    && arm.Armed? && arm.baseline.podName != ""
    && c.pod(attempt).Some? && c.pod(attempt).value != arm.baseline.podName
  }

  /** The attempt's window was not, and every read after it succeeded. */
  predicate ReadableAt(c: Cluster, b: Baseline, restarts: nat, attempt: nat) {
    var arm, after := InForce(c, b, restarts, attempt), c.outcome(attempt);
    && arm.Armed? && (arm.baseline.podName != "" ==> c.pod(attempt) == Some(arm.baseline.podName))
    && after.Some? && c.diff(arm.baseline.snapshot, after.value.snapshot).Some?
  }

  ghost predicate AllSpoiled(c: Cluster, b: Baseline, restarts: nat, n: nat) {
    forall k: nat | restarts <= k < n :: SpoiledAt(c, b, restarts, k)
  }

  /** Once re-armed, the rest of the chain is the re-armed baseline's own. */
  lemma ChainContinues(c: Cluster, b: Baseline, next: Baseline, restarts: nat, later: nat, n: nat)
    requires ConvergeArm(c.gates(restarts)).Armed? && later == restarts + 1 <= n
    requires next == ConvergeArm(c.gates(restarts)).baseline.(notes := next.notes)
    ensures ReadableAt(c, next, later, n) <==> ReadableAt(c, b, restarts, n)
    ensures AllSpoiled(c, b, restarts, n) <==> SpoiledAt(c, b, restarts, restarts) && AllSpoiled(c, next, later, n)
  {
    forall k: nat | later <= k ensures SpoiledAt(c, next, later, k) <==> SpoiledAt(c, b, restarts, k) { }
  }

  /** A check is measured at attempt n exactly when every window before it was spoiled, at
      most two of them, and its own was not and could be read. */
  lemma {:induction false} MeasuredExactly(c: Cluster, poll: int, b: Baseline, waitDur: int, restarts: nat, n: nat)
    requires restarts <= n && restarts <= MAX_RESTART_RETRIES
    ensures var e := Attempt(c, poll, b, waitDur, restarts);
      e.Measured? && e.attempt == n <==>
        && n <= 2 && ReadableAt(c, b, restarts, n)
        && AllSpoiled(c, b, restarts, n)
    decreases MAX_RESTART_RETRIES + 1 - restarts
  {
    var arm, e := ConvergeArm(c.gates(restarts)), Attempt(c, poll, b, waitDur, restarts);
    assert SpoiledAt(c, b, restarts, restarts) <==> Replaced(b, c.pod(restarts));
    if Replaced(b, c.pod(restarts)) && restarts < MAX_RESTART_RETRIES && arm.Armed? {
      var next := Carried(b, arm.baseline, restarts, c.pod(restarts).value);
      if n > restarts {
        ChainContinues(c, b, next, restarts, restarts + 1, n);
        MeasuredExactly(c, poll, next, ConvergeWait(poll), restarts + 1, n);
      } else if e.Measured? {
        MeasuredMeans(c, poll, next, ConvergeWait(poll), restarts + 1);
      }
    } else if Replaced(b, c.pod(restarts)) && !arm.Armed? && n > restarts {
      NotArmedIsNeither(c, b, restarts, n);
    }
  }

  /** Past an attempt that could not be re-armed no chain of spoiled windows leads on. */
  lemma NotArmedIsNeither(c: Cluster, b: Baseline, restarts: nat, n: nat)
    requires n > restarts && !ConvergeArm(c.gates(restarts)).Armed?
    ensures !(ReadableAt(c, b, restarts, n) && AllSpoiled(c, b, restarts, n))
  {
    assert !ReadableAt(c, b, restarts, restarts + 1) && !SpoiledAt(c, b, restarts, restarts + 1);
  }

  /** A check is inconclusive exactly when all three windows were spoiled, and says so. */
  lemma {:induction false} SpoiledExactly(c: Cluster, poll: int, b: Baseline, waitDur: int, restarts: nat)
    requires restarts <= MAX_RESTART_RETRIES
    ensures var e := Attempt(c, poll, b, waitDur, restarts);
      && (e.Spoiled? <==> AllSpoiled(c, b, restarts, 3))
      && (e.Spoiled? ==>
            && !e.verdict.passed && e.verdict.message == Inconclusive
            && exists was, now :: e.verdict.diagnostics == [SpoiledEveryTime(3, was, now)] && was != now)
    decreases MAX_RESTART_RETRIES - restarts
  {
    var arm, pod := ConvergeArm(c.gates(restarts)), c.pod(restarts);
    assert SpoiledAt(c, b, restarts, restarts) <==> Replaced(b, pod);
    if Replaced(b, pod) && restarts < MAX_RESTART_RETRIES {
      if arm.Armed? {
        var next := Carried(b, arm.baseline, restarts, pod.value);
        ChainContinues(c, b, next, restarts, restarts + 1, 3);
        SpoiledExactly(c, poll, next, ConvergeWait(poll), restarts + 1);
      } else {
        assert !SpoiledAt(c, b, restarts, restarts + 1);
      }
    }
  }

  /** A check ends on a re-arming's own verdict exactly when, after windows all spoiled so
      far, the re-arming at some attempt was such a verdict. */
  lemma {:induction false} EarlyExactly(c: Cluster, poll: int, b: Baseline, waitDur: int, restarts: nat, v: Verdict)
    requires restarts <= MAX_RESTART_RETRIES
    ensures Attempt(c, poll, b, waitDur, restarts) == EarlyExit(v) <==> exists m :: RearmsTo(c, b, restarts, m, v)
    decreases MAX_RESTART_RETRIES - restarts
  {
    var arm, pod := ConvergeArm(c.gates(restarts)), c.pod(restarts);
    assert SpoiledAt(c, b, restarts, restarts) <==> Replaced(b, pod);
    if Replaced(b, pod) && restarts < MAX_RESTART_RETRIES {
      if arm.Armed? {
        var next := Carried(b, arm.baseline, restarts, pod.value);
        EarlyExactly(c, poll, next, ConvergeWait(poll), restarts + 1, v);
        RearmsLater(c, b, next, restarts, restarts + 1, v);
      } else {
        if arm == Early(v) { assert RearmsTo(c, b, restarts, restarts, v); }
        assert !SpoiledAt(c, b, restarts, restarts + 1);
      }
    }
  }

  ghost predicate RearmsTo(c: Cluster, b: Baseline, restarts: nat, m: int, v: Verdict) {
    restarts <= m < 2 && AllSpoiled(c, b, restarts, m + 1) && ConvergeArm(c.gates(m)) == Early(v)
  }

  lemma RearmsLater(c: Cluster, b: Baseline, next: Baseline, restarts: nat, later: nat, v: Verdict)
    requires ConvergeArm(c.gates(restarts)).Armed? && later == restarts + 1 && SpoiledAt(c, b, restarts, restarts)
    requires next == ConvergeArm(c.gates(restarts)).baseline.(notes := next.notes)
    ensures (exists m :: RearmsTo(c, b, restarts, m, v)) <==> (exists m :: RearmsTo(c, next, later, m, v))
  {
    forall m: int | m >= later ensures RearmsTo(c, b, restarts, m, v) <==> RearmsTo(c, next, later, m, v) {
      ChainContinues(c, b, next, restarts, later, m + 1);
    }
    assert !RearmsTo(c, b, restarts, restarts, v);
  }

  // ---------- windows ----------

  /** One and a half poll intervals, sixty seconds standing in for an unset one. */
  function ConvergeWait(poll: int): (w: int)
    ensures 2 * w <= 3 * (if poll <= 0 then DEFAULT_POLL else poll) < 2 * w + 2
    ensures poll > 0 ==> w >= poll
  {
    (if poll <= 0 then DEFAULT_POLL else poll) * 3 / 2
  }

  predicate IsArmed(b: Option<Baseline>) { b.Some? }

  /** The deadline is target `i`'s baseline plus target `j`'s wait. */
  predicate ClosesAt(polls: seq<int>, baselines: seq<Option<Baseline>>, i: nat, j: nat, deadline: int)
    requires |polls| == |baselines|
  {
    && i < |baselines| && j < |baselines| && baselines[i].Some? && baselines[j].Some?
    && deadline == baselines[i].value.armedAt + ConvergeWait(polls[j])
  }

  /** Every armed target's own required wait fits between its baseline and the deadline,
      which is the latest baseline plus the longest wait and no later. */
  method ConvergeAllDeadline(polls: seq<int>, baselines: seq<Option<Baseline>>) returns (deadline: nat, armed: nat)
    requires |polls| == |baselines|
    ensures armed == |Select(baselines, IsArmed)|
    ensures forall i | 0 <= i < |baselines| && baselines[i].Some? ::
      baselines[i].value.armedAt + ConvergeWait(polls[i]) <= deadline
    ensures armed > 0 ==> exists i: nat, j: nat :: ClosesAt(polls, baselines, i, j, deadline)
  {
    deadline, armed := 0, 0;
    var maxWait: nat := 0;
    ghost var latest, longest := 0, 0;
    for i := 0 to |baselines|
      invariant armed == |Select(baselines[..i], IsArmed)|
      invariant forall k | 0 <= k < i && baselines[k].Some? ::
        baselines[k].value.armedAt <= deadline && ConvergeWait(polls[k]) <= maxWait
      invariant armed > 0 ==> 0 <= latest < i && baselines[latest].Some? && deadline == baselines[latest].value.armedAt
      invariant armed > 0 ==> 0 <= longest < i && baselines[longest].Some? && maxWait == ConvergeWait(polls[longest])
      invariant armed == 0 ==> deadline == 0 && maxWait == 0
    {
      assert baselines[..i + 1] == baselines[..i] + [baselines[i]];
      SelectAppend(baselines[..i], baselines[i], IsArmed);
      if baselines[i].None? { continue; }
      var b := baselines[i].value;
      if b.armedAt > deadline || armed == 0 { latest := i; }
      if ConvergeWait(polls[i]) > maxWait || armed == 0 { longest := i; }
      armed := armed + 1;
      if b.armedAt > deadline { deadline := b.armedAt; }
      var w := ConvergeWait(polls[i]);
      if w > maxWait { maxWait := w; }
    }
    assert baselines[..|baselines|] == baselines;
    deadline := deadline + maxWait;
    if armed > 0 { assert ClosesAt(polls, baselines, latest, longest, deadline); }
  }

  // ---------- RunConvergeAll ----------

  datatype Target = Target(cluster: Cluster, first: Gates, poll: int)

  /** A target's result when its turn came at `turn`: what arming alone decided, or its check
      over the time since its own baseline, no less than its own required window. */
  predicate Observed(t: Target, turn: nat, r: Ending) {
    match ConvergeArm(t.first)
    case ArmFailed => r == Failed
    case Early(v) => r == EarlyExit(v)
    case Armed(b) =>
      turn - b.armedAt >= ConvergeWait(t.poll) && r == Attempt(t.cluster, t.poll, b, turn - b.armedAt, 0)
  }

  /** The shared window closes when arming is done or, if that is later, with the longest
      wait of an armed target after the latest baseline. */
  ghost predicate ClosesTogether(targets: seq<Target>, now: nat, closed: nat) {
    closed >= now && (closed == now || exists t, u :: t in targets && u in targets && ClosesWith(t, u, closed))
  }

  predicate ClosesWith(t: Target, u: Target, closed: nat) {
    && ConvergeArm(t.first).Armed? && ConvergeArm(u.first).Armed?
    && closed == ConvergeArm(t.first).baseline.armedAt + ConvergeWait(u.poll)
  }

  /** Every target's result stands at its own index. */
  ghost predicate AllObserved(targets: seq<Target>, closed: nat, lags: seq<nat>, results: array<Ending>)
    reads results
  {
    |targets| == |lags| == results.Length && forall i | 0 <= i < |targets| ::
      Observed(targets[i], closed + lags[i], results[i])
  }

  /** How a target stands once arming is over. */
  ghost predicate AfterArming(t: Target, b: Option<Baseline>, r: Ending) {
    match ConvergeArm(t.first)
    case ArmFailed => b.None? && r == Failed
    case Early(v) => b.None? && r == EarlyExit(v)
    case Armed(armed) => b == Some(armed)
  }

  ghost predicate AllArmed(targets: seq<Target>, baselines: seq<Option<Baseline>>, results: array<Ending>)
    reads results
  {
    |baselines| == |targets| == results.Length && forall i | 0 <= i < |targets| ::
      AfterArming(targets[i], baselines[i], results[i])
  }

  method ArmAll(targets: seq<Target>, results: array<Ending>) returns (baselines: seq<Option<Baseline>>)
    requires results.Length == |targets|
    modifies results
    ensures AllArmed(targets, baselines, results)
  {
    baselines := [];
    for i := 0 to |targets|
      invariant |baselines| == i && forall k | 0 <= k < i :: AfterArming(targets[k], baselines[k], results[k])
    {
      match ConvergeArm(targets[i].first) {
        case ArmFailed =>
          results[i] := Failed;
          baselines := baselines + [None];
        case Early(v) =>
          results[i] := EarlyExit(v);
          baselines := baselines + [None];
        case Armed(b) =>
          baselines := baselines + [Some(b)];
      }
    }
  }

  /** One target's turn: its check if it is armed, over the time since its own baseline. */
  function Turn(t: Target, b: Option<Baseline>, turn: nat, armed: Ending): Ending {
    if b.None? then armed else Attempt(t.cluster, t.poll, b.value, turn - b.value.armedAt, 0)
  }

  lemma TurnIsObserved(t: Target, b: Option<Baseline>, turn: nat, armed: Ending)
    requires AfterArming(t, b, armed) && (b.Some? ==> turn - b.value.armedAt >= ConvergeWait(t.poll))
    ensures Observed(t, turn, Turn(t, b, turn, armed))
  { }

  method TakeTurns(targets: seq<Target>, baselines: seq<Option<Baseline>>, closed: nat, lags: seq<nat>,
                   results: array<Ending>)
    requires |baselines| == |lags| == |targets| == results.Length
    modifies results
    ensures forall i | 0 <= i < |targets| ::
      results[i] == Turn(targets[i], baselines[i], closed + lags[i], old(results[i]))
  {
    for i := 0 to |targets|
      invariant forall k | 0 <= k < i :: results[k] == Turn(targets[k], baselines[k], closed + lags[k], old(results[k]))
      invariant forall k | i <= k < |targets| :: results[k] == old(results[k])
    {
      if baselines[i].None? { continue; }
      var t, b := targets[i], baselines[i].value;
      results[i] := Attempt(t.cluster, t.poll, b, closed + lags[i] - b.armedAt, 0);
    }
  }

  method AssertAll(targets: seq<Target>, baselines: seq<Option<Baseline>>, closed: nat, lags: seq<nat>,
                   results: array<Ending>)
    requires AllArmed(targets, baselines, results) && |lags| == |targets|
    requires forall i | 0 <= i < |targets| && baselines[i].Some? ::
      baselines[i].value.armedAt + ConvergeWait(targets[i].poll) <= closed
    modifies results
    ensures AllObserved(targets, closed, lags, results)
  {
    forall i | 0 <= i < |targets|
      ensures Observed(targets[i], closed + lags[i], Turn(targets[i], baselines[i], closed + lags[i], results[i]))
    {
      TurnIsObserved(targets[i], baselines[i], closed + lags[i], results[i]);
    }
    TakeTurns(targets, baselines, closed, lags, results);
  }

  /** `now` is the clock when arming is done and `lags` how long after the shared window
      closed each target's turn came. */
  method RunConvergeAll(targets: seq<Target>, now: nat, lags: seq<nat>)
    returns (results: array<Ending>, ghost closed: nat)
    requires |lags| == |targets|
    ensures ClosesTogether(targets, now, closed)
    ensures AllObserved(targets, closed, lags, results)
  {
    closed := now;
    results := new Ending[|targets|](_ => Failed);
    var baselines := ArmAll(targets, results);
    var deadline, armed := SharedDeadline(targets, baselines, results);
    if armed == 0 {
      NothingObserved(targets, baselines, results, closed, lags);
      return;
    }
    var barrier := if deadline > now then deadline else now;
    closed := barrier;
    AssertAll(targets, baselines, barrier, lags, results);
  }

  method SharedDeadline(targets: seq<Target>, baselines: seq<Option<Baseline>>, ghost results: array<Ending>)
    returns (deadline: nat, armed: nat)
    requires AllArmed(targets, baselines, results)
    ensures armed == |Select(baselines, IsArmed)|
    ensures armed > 0 ==> exists t, u :: t in targets && u in targets && ClosesWith(t, u, deadline)
    ensures forall i | 0 <= i < |targets| && baselines[i].Some? ::
      baselines[i].value.armedAt + ConvergeWait(targets[i].poll) <= deadline
  {
    var polls := seq(|targets|, i requires 0 <= i < |targets| => targets[i].poll);
    deadline, armed := ConvergeAllDeadline(polls, baselines);
    if armed > 0 { DeadlineIsShared(targets, polls, baselines, results, deadline); }
  }

  lemma DeadlineIsShared(targets: seq<Target>, polls: seq<int>, baselines: seq<Option<Baseline>>,
                         results: array<Ending>, deadline: nat)
    requires AllArmed(targets, baselines, results) && |polls| == |targets|
    requires forall i :: 0 <= i < |targets| ==> polls[i] == targets[i].poll
    requires exists i: nat, j: nat :: ClosesAt(polls, baselines, i, j, deadline)
    ensures exists t, u :: t in targets && u in targets && ClosesWith(t, u, deadline)
  {
    var i: nat, j: nat :| ClosesAt(polls, baselines, i, j, deadline);
    assert AfterArming(targets[i], baselines[i], results[i]) && AfterArming(targets[j], baselines[j], results[j]);
    assert targets[i] in targets && targets[j] in targets && ClosesWith(targets[i], targets[j], deadline);
  }

  lemma NothingObserved(targets: seq<Target>, baselines: seq<Option<Baseline>>, results: array<Ending>, closed: nat,
                        lags: seq<nat>)
    requires AllArmed(targets, baselines, results) && |lags| == |targets| && |Select(baselines, IsArmed)| == 0
    ensures AllObserved(targets, closed, lags, results)
  {
    forall i | 0 <= i < |targets| ensures Observed(targets[i], closed + lags[i], results[i]) {
      SelectMembers(baselines, IsArmed, baselines[i]);
      assert AfterArming(targets[i], baselines[i], results[i]);
    }
  }

  // ---------- attributing log lines ----------

  /** A controller log line: blank, its timestamp if it parses, whether it carries one of
      the Update() messages, and the reconcile request it names. */
  datatype LogLine = LogLine(blank: bool, stamp: Option<nat>, update: bool, request: Option<(string, string)>)

  /** A line counts when it is stamped after the window opened or cannot be placed in time
      (0 stands for no anchor), and is a call when it is an Update() line naming exactly
      this resource. */
  method CountUpdateLogLinesIn(log: seq<LogLine>, name: string, namespace: string, armedAt: nat)
    returns (calls: nat, lines: nat)
    ensures lines ==
      |Select(log, (l: LogLine) => !l.blank && (l.stamp.None? || armedAt == 0 || armedAt < l.stamp.value))|
    ensures calls ==
      |Select(log, (l: LogLine) => !l.blank && (l.stamp.None? || armedAt == 0 || armedAt < l.stamp.value)
                                     && l.update && l.request == Some((name, namespace)))|
    ensures calls <= lines
  {
    var seen := (l: LogLine) => !l.blank && (l.stamp.None? || armedAt == 0 || armedAt < l.stamp.value);
    var ours := (l: LogLine) => !l.blank && (l.stamp.None? || armedAt == 0 || armedAt < l.stamp.value)
                                  && l.update && l.request == Some((name, namespace));
    calls, lines := 0, 0;
    for i := 0 to |log|
      invariant lines == |Select(log[..i], seen)| && calls == |Select(log[..i], ours)| && calls <= lines
    {
      assert log[..i + 1] == log[..i] + [log[i]];
      SelectAppend(log[..i], log[i], seen);
      SelectAppend(log[..i], log[i], ours);
      var line := log[i];
      if line.blank { continue; }
      if line.stamp.Some? && armedAt != 0 && line.stamp.value <= armedAt { continue; }
      lines := lines + 1;
      if !line.update || line.request.None? { continue; }
      if line.request.value.0 == name && line.request.value.1 == namespace { calls := calls + 1; }
    }
    assert log[..|log|] == log;
  }
}
