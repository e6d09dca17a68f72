/** One pipeline run as a function of everything outside it.

    Step bodies, the pause sentinel and the moment of a shutdown request are arbitrary; the report,
    the extras, the event log and the list of history writes are what the orchestrator makes of them.
    `Pipeline` in Pipeline.dfy is the orchestrator itself, proved to do exactly this.
*/
module PipelineRun {
  import opened Options

  // ---------------------------------------------------------------- step specifications

  /** Step names; `Other` is any name outside the nine, which only an override can carry. */
  datatype Name =
    | Ingest | Sort | Clean | Scrape | Cleanup | Enforce | Verify | Trailers | Dispatch
    | Other(text: string)

  /** `skips` marks the `skip_when` predicate "no verified items", `publishes` the extras key
      `verified`. */
  datatype StepSpec = StepSpec(name: Name, critical: bool, publishes: bool, skips: bool)

  /** The ordered step specifications. */
  const STEP_SPECS: seq<StepSpec> := [
    StepSpec(Ingest, true, false, false),
    StepSpec(Sort, true, false, false),
    StepSpec(Clean, false, false, false),
    StepSpec(Scrape, false, false, false),
    StepSpec(Cleanup, false, false, false),
    StepSpec(Enforce, false, false, false),
    StepSpec(Verify, false, true, false),
    StepSpec(Trailers, false, false, false),
    StepSpec(Dispatch, false, false, true)
  ]

  /** A step's callable: the built-in adapter, or one an override supplied. */
  datatype Adapter = BuiltIn(name: Name) | Override(name: Name, id: nat)

  function Resolve(overrides: map<Name, nat>, name: Name): Adapter {
    if name in overrides then Override(name, overrides[name]) else BuiltIn(name)
  }

  // ---------------------------------------------------------------- the outside world

  datatype StepReport = StepReport(successes: nat, skips: nat, errors: nat, status: Option<string>)

  /** What calling a step does.  `extra` is `None` when it returns a bare report; `payloadAccepted` is
      the verdict of the report contract; `Escapes` is an exception that is not an `Exception`
      (KeyboardInterrupt, SystemExit), which the orchestrator does not catch. */
  datatype Result =
    | Returned(report: StepReport, extra: Option<seq<string>>, payloadAccepted: bool)
    | Raised
    | Escapes

  /** `specs` is the list the loop iterates, STEP_SPECS in production.  `pauses(i)` is `None` when the
      sentinel is absent at boundary `i`, else how many polls find it.  The shutdown flag is raised when
      the `shutdownAt`-th moment comes, never if it does not. */
  datatype World = World(
    specs: seq<StepSpec>,
    overrides: map<Name, nat>,
    results: Adapter -> Result,
    pauses: nat -> Option<nat>,
    shutdownAt: nat,
    gateRaises: bool,
    revertRaises: bool,
    continueOnTrailerError: bool)

  // ---------------------------------------------------------------- what a run leaves behind

  /** Bus events, and the moment a shutdown request arrives (which is not on the bus). */
  datatype Event =
    | PipelineStarted
    | PipelinePaused
    | PipelineResumed
    | StepStarted(step: Name)
    | StepCompleted(step: Name)
    | StepErrored(step: Name)
    | PipelineEnded
    | ShutdownRequested

  datatype Status = SuccessStatus | ErrorStatus | SkippedStatus

  datatype Entry = Entry(name: Name, status: Status)

  /** `steps` with `order` is the report's insertion-ordered dictionary, `verified` the extras entry,
      `calls` the callables invoked, `recorded` the history writes attempted, `moment` the clock the
      shutdown request is timed by. */
  datatype Core = Core(
    trace: seq<Event>,
    steps: map<Name, StepReport>,
    order: seq<Name>,
    verified: Option<seq<string>>,
    calls: seq<(Name, Adapter)>,
    recorded: seq<Entry>,
    shutdown: bool,
    moment: nat)

  /** How the step loop goes on, or why it stops. */
  datatype Signal = Continue | CriticalAbort | Interrupted | Failed | Escaped

  const FRESH: Core := Core([], map[], [], None, [], [], false, 0)

  function Emit(s: Core, e: Event): Core {
    s.(trace := s.trace + [e])
  }

  function AddStep(s: Core, name: Name, report: StepReport): Core {
    s.(steps := s.steps[name := report], order := if name in s.steps then s.order else s.order + [name])
  }

  function Record(s: Core, name: Name, status: Status): Core {
    s.(recorded := s.recorded + [Entry(name, status)])
  }

  /** One moment passes; this is where a shutdown request can land. */
  function Tick(s: Core, w: World): Core {
    var later := s.(moment := s.moment + 1);
    if s.moment == w.shutdownAt then Emit(later, ShutdownRequested).(shutdown := true) else later
  }

  // ---------------------------------------------------------------- the step boundary

  /** The pause loop while the sentinel is still found `polls` more times. */
  function PauseLoop(s: Core, w: World, polls: nat): (Core, Signal)
    decreases polls
  {
    if polls == 0 then (Emit(s, PipelineResumed), Continue)
    else if s.shutdown then (s, Interrupted)
    else PauseLoop(Tick(s, w), w, polls - 1)
  }

  function Boundary(s: Core, w: World, i: nat): (Core, Signal) {
    var s1 := Tick(s, w);
    if s1.shutdown then (s1, Interrupted)
    else
      match w.pauses(i)
      case None => (s1, Continue)
      case Some(polls) => PauseLoop(Tick(Emit(s1, PipelinePaused), w), w, polls)
  }

  // ---------------------------------------------------------------- one step

  const ERROR_REPORT: StepReport := StepReport(0, 0, 1, None)
  const SKIP_REPORT: StepReport := StepReport(0, 1, 0, None)

  predicate NoVerifiedItems(s: Core) {
    s.verified.None? || s.verified.value == []
  }

  function Skip(s: Core, name: Name): Core {
    Record(Emit(AddStep(Emit(s, StepStarted(name)), name, SKIP_REPORT), StepCompleted(name)), name, SkippedStatus)
  }

  function Publish(s: Core, spec: StepSpec, extra: Option<seq<string>>): Core {
    if spec.publishes then s.(verified := Some(if extra.Some? then extra.value else [])) else s
  }

  /** Calling the step; `extra` survives a payload the contract refuses. */
  function Call(s: Core, w: World, spec: StepSpec): (Core, Signal) {
    var adapter := Resolve(w.overrides, spec.name);
    var started := Emit(s, StepStarted(spec.name));
    var s1 := Tick(started.(calls := started.calls + [(spec.name, adapter)]), w);
    match w.results(adapter)
    case Escapes => (s1, Escaped)
    case Raised => Crash(s1, spec, None)
    case Returned(report, extra, accepted) =>
      if !accepted then Crash(s1, spec, extra)
      else (Publish(Record(Emit(AddStep(s1, spec.name, report), StepCompleted(spec.name)), spec.name, SuccessStatus),
                    spec, extra), Continue)
  }

  function Crash(s: Core, spec: StepSpec, extra: Option<seq<string>>): (Core, Signal) {
    var s1 := AddStep(Record(Emit(s, StepErrored(spec.name)), spec.name, ErrorStatus), spec.name, ERROR_REPORT);
    if spec.critical then (s1, CriticalAbort) else (Publish(s1, spec, extra), Continue)
  }

  /** The post-sort gate, the post-scrape revert and the post-trailers gate. */
  function Between(s: Core, w: World, name: Name): Signal {
    if name == Sort && w.gateRaises then Failed
    else if name == Scrape && w.revertRaises then Failed
    else if name == Trailers && Trailers in s.steps && s.steps[Trailers].status == Some("error")
            && !w.continueOnTrailerError then Failed
    else Continue
  }

  function Step(s: Core, w: World, i: nat): (Core, Signal)
    requires i < |w.specs|
  {
    var (s1, boundary) := Boundary(s, w, i);
    if boundary != Continue then (s1, boundary)
    else
      var s2 := Tick(s1, w);
      var spec := w.specs[i];
      if spec.skips && NoVerifiedItems(s2) then (Skip(s2, spec.name), Between(Skip(s2, spec.name), w, spec.name))
      else
        var (s3, called) := Call(s2, w, spec);
        if called != Continue then (s3, called) else (s3, Between(s3, w, spec.name))
  }

  function RunFrom(s: Core, w: World, i: nat): (Core, Signal)
    requires i <= |w.specs|
    decreases |w.specs| - i
  {
    if i == |w.specs| then (s, Continue)
    else
      var (s1, signal) := Step(s, w, i);
      if signal != Continue then (s1, signal) else RunFrom(s1, w, i + 1)
  }

  /** The run's state when its last event is out, and why the step loop ended. */
  function Run(w: World): (Core, Signal) {
    var (s, signal) := RunFrom(Emit(FRESH, PipelineStarted), w, 0);
    (Emit(s, PipelineEnded), signal)
  }

  datatype Outcome = Success | Error | Killed

  /** The outcome written to the history: a critical abort returns normally, and what is not an
      `Exception` leaves the initial value. */
  function OutcomeOf(signal: Signal): Outcome {
    match signal
    case Interrupted => Killed
    case Failed => Error
    case _ => Success
  }
}
