/** What holds of every pipeline run. */
module PipelineLaws {
  import opened Options
  import opened PipelineRun

  // ---------------------------------------------------------------- the event grammar

  /** A recogniser for event logs.  `Ready(i, resumed)` is between steps, `i` steps having ended. */
  datatype Mode = Begin | Ready(i: nat, resumed: bool) | InPause(i: nat) | InStep(i: nat) | Over | OverMidStep | Bad

  function Next(specs: seq<StepSpec>, m: Mode, e: Event): Mode {
    match e
    case ShutdownRequested => m
    case PipelineStarted => if m.Begin? then Ready(0, false) else Bad
    case PipelinePaused => if m.Ready? && !m.resumed && m.i < |specs| then InPause(m.i) else Bad
    case PipelineResumed => if m.InPause? then Ready(m.i, true) else Bad
    case StepStarted(n) => if m.Ready? && m.i < |specs| && n == specs[m.i].name then InStep(m.i) else Bad
    case StepCompleted(n) => if m.InStep? && m.i < |specs| && n == specs[m.i].name then Ready(m.i + 1, false) else Bad
    case StepErrored(n) => if m.InStep? && m.i < |specs| && n == specs[m.i].name then Ready(m.i + 1, false) else Bad
    case PipelineEnded =>
      if (m.Ready? && !m.resumed) || m.InPause? then Over else if m.InStep? then OverMidStep else Bad
  }

  function ModeOf(specs: seq<StepSpec>, trace: seq<Event>): Mode {
    if trace == [] then Begin else Next(specs, ModeOf(specs, trace[..|trace| - 1]), trace[|trace| - 1])
  }

  /** A shutdown was requested somewhere in `trace`. */
  predicate Requested(trace: seq<Event>) {
    trace != [] && (trace[|trace| - 1].ShutdownRequested? || Requested(trace[..|trace| - 1]))
  }

  /** How many steps started after the request. */
  function StartedAfterRequest(trace: seq<Event>): nat {
    if trace == [] then 0
    else
      var front, last := trace[..|trace| - 1], trace[|trace| - 1];
      StartedAfterRequest(front) + (if last.StepStarted? && Requested(front) then 1 else 0)
  }

  /** The step-ending events of `trace`, in order. */
  function EndsOf(trace: seq<Event>): seq<Event> {
    if trace == [] then []
    else
      var last := trace[|trace| - 1];
      EndsOf(trace[..|trace| - 1]) + (if last.StepCompleted? || last.StepErrored? then [last] else [])
  }

  lemma AfterEmit(specs: seq<StepSpec>, trace: seq<Event>, e: Event)
    ensures ModeOf(specs, trace + [e]) == Next(specs, ModeOf(specs, trace), e)
    ensures Requested(trace + [e]) <==> e.ShutdownRequested? || Requested(trace)
    ensures StartedAfterRequest(trace + [e]) ==
            StartedAfterRequest(trace) + (if e.StepStarted? && Requested(trace) then 1 else 0)
    ensures EndsOf(trace + [e]) == if e.StepCompleted? || e.StepErrored? then EndsOf(trace) + [e] else EndsOf(trace)
  {
    assert (trace + [e])[..|trace|] == trace;
  }

  // ---------------------------------------------------------------- facts of the world

  const STEPS: nat := 9
  const SORT: nat := 1
  const SCRAPE: nat := 3
  const VERIFY: nat := 6
  const TRAILERS: nat := 7
  const DISPATCH: nat := 8

  /** What the laws use of the step list: nine distinct names with `sort`, `scrape`, `verify`,
      `trailers` and `dispatch` in their places, only `verify` publishing, only `dispatch` skippable,
      neither critical.  Which other steps are critical is left open. */
  ghost predicate Shaped(w: World) {
    && |w.specs| == STEPS
    && (forall i, j :: 0 <= i < j < STEPS ==> w.specs[i].name != w.specs[j].name)
    && w.specs[SORT].name == Sort && w.specs[SCRAPE].name == Scrape && w.specs[VERIFY].name == Verify
    && w.specs[TRAILERS].name == Trailers && w.specs[DISPATCH].name == Dispatch
    && (forall i :: 0 <= i < STEPS ==> (w.specs[i].publishes <==> i == VERIFY) && (w.specs[i].skips <==> i == DISPATCH))
    && !w.specs[VERIFY].critical && !w.specs[DISPATCH].critical
  }

  lemma StepSpecsAreShaped(w: World)
    requires w.specs == STEP_SPECS
    ensures Shaped(w)
    ensures forall i :: 0 <= i < STEPS ==>
              (w.specs[i].critical <==> w.specs[i].name == Ingest || w.specs[i].name == Sort)
  {
  }

  function StepResult(w: World, i: nat): Result
    requires |w.specs| == STEPS && i < STEPS
  {
    w.results(Resolve(w.overrides, w.specs[i].name))
  }

  /** The step's callable raised, or returned a payload the contract refuses. */
  predicate Crashes(w: World, i: nat)
    requires |w.specs| == STEPS && i < STEPS
  {
    StepResult(w, i).Raised? || (StepResult(w, i).Returned? && !StepResult(w, i).payloadAccepted)
  }

  /** The list the verify callable hands over, accepted payload or not. */
  function VerifiedItems(w: World): seq<string>
    requires |w.specs| == STEPS
  {
    var r := StepResult(w, VERIFY);
    if r.Returned? && r.extra.Some? then r.extra.value else []
  }

  predicate Skipped(w: World, i: nat)
    requires |w.specs| == STEPS && i < STEPS
  {
    i == DISPATCH && VerifiedItems(w) == []
  }

  function ExpectedStatus(w: World, i: nat): Status
    requires |w.specs| == STEPS && i < STEPS
  {
    if Skipped(w, i) then SkippedStatus else if Crashes(w, i) then ErrorStatus else SuccessStatus
  }

  predicate TrailersGateTrips(w: World)
    requires |w.specs| == STEPS
  {
    var r := StepResult(w, TRAILERS);
    r.Returned? && r.payloadAccepted && r.report.status == Some("error") && !w.continueOnTrailerError
  }

  /** What step `i` must have been like for the loop to go on to the next one. */
  predicate Passes(w: World, i: nat)
    requires |w.specs| == STEPS && i < STEPS
  {
    && (Skipped(w, i) || !StepResult(w, i).Escapes?)
    && (w.specs[i].critical ==> !Crashes(w, i))
    && !(i == SORT && w.gateRaises) && !(i == SCRAPE && w.revertRaises) && !(i == TRAILERS && TrailersGateTrips(w))
  }

  function CallsFor(w: World, n: nat): seq<(Name, Adapter)>
    requires |w.specs| == STEPS && n <= STEPS
  {
    if n == 0 then []
    else CallsFor(w, n - 1)
         + (if Skipped(w, n - 1) then []
            else [(w.specs[n - 1].name, Resolve(w.overrides, w.specs[n - 1].name))])
  }

  function EntriesFor(w: World, n: nat): seq<Entry>
    requires |w.specs| == STEPS && n <= STEPS
  {
    if n == 0 then [] else EntriesFor(w, n - 1) + [Entry(w.specs[n - 1].name, ExpectedStatus(w, n - 1))]
  }

  /** The event that ends step `i`: an error status is a `StepErrored`, anything else a completion. */
  function EndEvent(w: World, i: nat): Event
    requires |w.specs| == STEPS && i < STEPS
  {
    if ExpectedStatus(w, i) == ErrorStatus then StepErrored(w.specs[i].name) else StepCompleted(w.specs[i].name)
  }

  function EndsFor(w: World, n: nat): seq<Event>
    requires |w.specs| == STEPS && n <= STEPS
  {
    if n == 0 then [] else EndsFor(w, n - 1) + [EndEvent(w, n - 1)]
  }

  /** The report the orchestrator files for step `i`. */
  function ReportOf(w: World, i: nat): StepReport
    requires |w.specs| == STEPS && i < STEPS
  {
    if Skipped(w, i) then SKIP_REPORT
    else if Crashes(w, i) || StepResult(w, i).Escapes? then ERROR_REPORT
    else StepResult(w, i).report
  }

  function ReportsFor(w: World, n: nat): map<Name, StepReport>
    requires |w.specs| == STEPS && n <= STEPS
  {
    if n == 0 then map[] else ReportsFor(w, n - 1)[w.specs[n - 1].name := ReportOf(w, n - 1)]
  }

  predicate AllPass(w: World, n: nat)
    requires |w.specs| == STEPS && n <= STEPS
  {
    n == 0 || (AllPass(w, n - 1) && Passes(w, n - 1))
  }

  lemma {:induction false} AllPassMeans(w: World, n: nat)
    requires |w.specs| == STEPS && n <= STEPS
    ensures AllPass(w, n) <==> forall i :: 0 <= i < n ==> Passes(w, i)
  {
    if n > 0 {
      AllPassMeans(w, n - 1);
    }
  }

  function Names(w: World, n: nat): seq<Name>
    requires |w.specs| == STEPS && n <= STEPS
  {
    if n == 0 then [] else Names(w, n - 1) + [w.specs[n - 1].name]
  }

  // ---------------------------------------------------------------- the loop invariant

  /** The flag and the trace agree on the request, and at most one step started after it. */
  predicate RequestHonored(s: Core) {
    && (s.shutdown <==> Requested(s.trace))
    && StartedAfterRequest(s.trace) <= (if s.shutdown then 1 else 0)
  }

  /** Nothing started after the request yet. */
  predicate RequestFresh(s: Core) {
    (s.shutdown <==> Requested(s.trace)) && StartedAfterRequest(s.trace) == 0
  }

  /** `n` steps have ended; their report, calls and history writes are those of the world. */
  ghost predicate StepsEnded(s: Core, w: World, n: nat) {
    && Shaped(w)
    && n <= STEPS
    && s.order == Names(w, n) && s.steps == ReportsFor(w, n)
    && s.calls == CallsFor(w, n) && s.recorded == EntriesFor(w, n) && EndsOf(s.trace) == EndsFor(w, n)
    && (n > VERIFY ==> s.verified == Some(VerifiedItems(w)))
    && (n <= VERIFY ==> s.verified == None)
  }

  ghost predicate AtBoundary(s: Core, w: World, n: nat) {
    && Shaped(w)
    && StepsEnded(s, w, n) && ModeOf(w.specs, s.trace) == Ready(n, false) && RequestHonored(s)
    && AllPass(w, n)
  }

  /** Nothing changed but pauses, the shutdown flag and the clock. */
  predicate SameBooks(s: Core, t: Core) {
    && s.steps == t.steps && s.order == t.order && s.verified == t.verified
    && s.calls == t.calls && s.recorded == t.recorded
    && EndsOf(s.trace) == EndsOf(t.trace)
  }

  lemma TickKeeps(s: Core, w: World)
    requires s.shutdown <==> Requested(s.trace)
    ensures var t := Tick(s, w);
            && SameBooks(s, t) && ModeOf(w.specs, t.trace) == ModeOf(w.specs, s.trace)
            && StartedAfterRequest(t.trace) == StartedAfterRequest(s.trace)
            && (t.shutdown <==> Requested(t.trace)) && (s.shutdown ==> t.shutdown)
  {
    AfterEmit(w.specs, s.trace, ShutdownRequested);
  }

  lemma {:induction false} PauseLoopKeeps(s: Core, w: World, polls: nat, n: nat)
    requires Shaped(w) && ModeOf(w.specs, s.trace) == InPause(n) && RequestFresh(s)
    ensures var (t, signal) := PauseLoop(s, w, polls);
            && SameBooks(s, t) && RequestFresh(t)
            && (signal == Continue || (signal == Interrupted && t.shutdown))
            && ModeOf(w.specs, t.trace) == (if signal == Continue then Ready(n, true) else InPause(n))
    decreases polls
  {
    if polls == 0 {
      AfterEmit(w.specs, s.trace, PipelineResumed);
    } else if !s.shutdown {
      TickKeeps(s, w);
      PauseLoopKeeps(Tick(s, w), w, polls - 1, n);
    }
  }

  /** A pending request stops the run at the boundary; otherwise nothing has started after one. */
  lemma BoundaryKeeps(s: Core, w: World, n: nat)
    requires Shaped(w) && n < STEPS && ModeOf(w.specs, s.trace) == Ready(n, false) && RequestHonored(s)
    ensures var (t, signal) := Boundary(s, w, n);
            && SameBooks(s, t)
            && (s.shutdown ==> signal == Interrupted)
            && StartedAfterRequest(t.trace) == StartedAfterRequest(s.trace)
            && (signal == Continue ==>
                  && RequestFresh(t)
                  && ModeOf(w.specs, t.trace).Ready? && ModeOf(w.specs, t.trace).i == n)
            && (signal != Continue ==>
                  && signal == Interrupted && t.shutdown && RequestHonored(t)
                  && (ModeOf(w.specs, t.trace) == Ready(n, false) || ModeOf(w.specs, t.trace) == InPause(n)))
  {
    TickKeeps(s, w);
    var s1 := Tick(s, w);
    if !s1.shutdown && w.pauses(n).Some? {
      AfterEmit(w.specs, s1.trace, PipelinePaused);
      TickKeeps(Emit(s1, PipelinePaused), w);
      PauseLoopKeeps(Tick(Emit(s1, PipelinePaused), w), w, w.pauses(n).value, n);
    }
  }

  // ---------------------------------------------------------------- one step

  lemma {:induction false} NameIsNew(w: World, n: nat, i: nat)
    requires Shaped(w) && n <= i < STEPS
    ensures w.specs[i].name !in ReportsFor(w, n)
  {
    if n > 0 {
      NameIsNew(w, n - 1, i);
    }
  }

  /** Why a loop that ended `n` steps stopped, and what it leaves. */
  ghost predicate StoppedAt(s: Core, w: World, signal: Signal, n: nat) {
    && Shaped(w)
    && n <= STEPS && RequestHonored(s)
    && match signal
       case Continue => n == STEPS && AtBoundary(s, w, n)
       case Interrupted =>
         && StepsEnded(s, w, n) && s.shutdown && AllPass(w, n)
         && (ModeOf(w.specs, s.trace) == Ready(n, false) || ModeOf(w.specs, s.trace) == InPause(n))
       case CriticalAbort =>
         && n > 0 && StepsEnded(s, w, n) && ModeOf(w.specs, s.trace) == Ready(n, false)
         && w.specs[n - 1].critical && Crashes(w, n - 1) && AllPass(w, n - 1)
       case Failed =>
         && n > 0 && StepsEnded(s, w, n) && ModeOf(w.specs, s.trace) == Ready(n, false)
         && !Passes(w, n - 1) && !(w.specs[n - 1].critical && Crashes(w, n - 1))
         && (Skipped(w, n - 1) || !StepResult(w, n - 1).Escapes?)
         && AllPass(w, n - 1)
       case Escaped =>
         && n < STEPS && s.order == Names(w, n) && s.recorded == EntriesFor(w, n) && s.calls == CallsFor(w, n + 1)
         && s.steps == ReportsFor(w, n) && EndsOf(s.trace) == EndsFor(w, n) && ModeOf(w.specs, s.trace) == InStep(n)
         && StepResult(w, n).Escapes? && !Skipped(w, n) && AllPass(w, n)
  }

  /** The state between the boundary and the step's own work. */
  ghost predicate Cleared(s: Core, w: World, n: nat) {
    && Shaped(w) && n < STEPS && StepsEnded(s, w, n) && RequestFresh(s)
    && ModeOf(w.specs, s.trace).Ready? && ModeOf(w.specs, s.trace).i == n
  }

  lemma SkipKeeps(s: Core, w: World, n: nat)
    requires Cleared(s, w, n) && n == DISPATCH && Skipped(w, n)
    ensures var t := Skip(s, w.specs[n].name);
            StepsEnded(t, w, n + 1) && ModeOf(w.specs, t.trace) == Ready(n + 1, false) && RequestHonored(t)
  {
    NameIsNew(w, n, n);
    AfterEmit(w.specs, s.trace, StepStarted(w.specs[n].name));
    AfterEmit(w.specs, s.trace + [StepStarted(w.specs[n].name)], StepCompleted(w.specs[n].name));
  }

  /** A started step whose callable has returned or raised. */
  ghost predicate Working(s: Core, w: World, n: nat) {
    && Shaped(w)
    && n < STEPS && ModeOf(w.specs, s.trace) == InStep(n) && RequestHonored(s)
    && s.order == Names(w, n) && s.steps == ReportsFor(w, n)
    && s.recorded == EntriesFor(w, n) && s.calls == CallsFor(w, n + 1) && EndsOf(s.trace) == EndsFor(w, n)
    && (n > VERIFY ==> s.verified == Some(VerifiedItems(w))) && (n <= VERIFY ==> s.verified == None)
  }

  function Started(s: Core, w: World, spec: StepSpec): Core {
    var started := Emit(s, StepStarted(spec.name));
    started.(calls := started.calls + [(spec.name, Resolve(w.overrides, spec.name))])
  }

  lemma TickKeepsWorking(s: Core, w: World, n: nat)
    requires Working(s, w, n)
    ensures Working(Tick(s, w), w, n)
  {
    TickKeeps(s, w);
  }

  lemma StartedWorks(s: Core, w: World, n: nat)
    requires Cleared(s, w, n) && !Skipped(w, n)
    ensures Working(Started(s, w, w.specs[n]), w, n)
  {
    AfterEmit(w.specs, s.trace, StepStarted(w.specs[n].name));
  }

  lemma StartKeeps(s: Core, w: World, n: nat)
    requires Cleared(s, w, n) && !Skipped(w, n)
    ensures Working(Tick(Started(s, w, w.specs[n]), w), w, n)
  {
    StartedWorks(s, w, n);
    TickKeepsWorking(Started(s, w, w.specs[n]), w, n);
  }

  /** The books of step `n` are closed, its extra is not published yet. */
  ghost predicate Closing(s: Core, w: World, n: nat) {
    && Shaped(w) && n < STEPS
    && s.order == Names(w, n + 1) && s.steps == ReportsFor(w, n + 1)
    && s.calls == CallsFor(w, n + 1) && s.recorded == EntriesFor(w, n + 1) && EndsOf(s.trace) == EndsFor(w, n + 1)
    && (n > VERIFY ==> s.verified == Some(VerifiedItems(w))) && (n <= VERIFY ==> s.verified == None)
    && ModeOf(w.specs, s.trace) == Ready(n + 1, false) && RequestHonored(s)
  }

  lemma ClosingFrom(s: Core, t: Core, w: World, n: nat)
    requires Working(s, w, n) && t.trace == s.trace + [EndEvent(w, n)]
    requires t.order == s.order + [w.specs[n].name] && t.steps == s.steps[w.specs[n].name := ReportOf(w, n)]
    requires t.recorded == s.recorded + [Entry(w.specs[n].name, ExpectedStatus(w, n))]
    requires t.calls == s.calls && t.verified == s.verified && t.shutdown == s.shutdown
    ensures Closing(t, w, n)
  {
    AfterEmit(w.specs, s.trace, EndEvent(w, n));
  }

  lemma PublishKeeps(s: Core, w: World, n: nat, extra: Option<seq<string>>)
    requires Closing(s, w, n) && (n == VERIFY ==> VerifiedItems(w) == if extra.Some? then extra.value else [])
    ensures var t := Publish(s, w.specs[n], extra);
            && StepsEnded(t, w, n + 1) && ModeOf(w.specs, t.trace) == Ready(n + 1, false) && RequestHonored(t)
            && t.steps == s.steps
  {
  }

  lemma CrashKeeps(s: Core, w: World, n: nat, extra: Option<seq<string>>)
    requires Working(s, w, n) && Crashes(w, n) && !Skipped(w, n)
    requires n == VERIFY ==> VerifiedItems(w) == if extra.Some? then extra.value else []
    ensures var (t, signal) := Crash(s, w.specs[n], extra);
            && StepsEnded(t, w, n + 1) && ModeOf(w.specs, t.trace) == Ready(n + 1, false) && RequestHonored(t)
            && signal == (if w.specs[n].critical then CriticalAbort else Continue)
            && w.specs[n].name in t.steps && t.steps[w.specs[n].name] == ERROR_REPORT
  {
    var spec := w.specs[n];
    NameIsNew(w, n, n);
    var t := AddStep(Record(Emit(s, StepErrored(spec.name)), spec.name, ErrorStatus), spec.name, ERROR_REPORT);
    ClosingFrom(s, t, w, n);
    PublishKeeps(t, w, n, extra);
  }

  lemma CompletionKeeps(s: Core, w: World, n: nat, report: StepReport, extra: Option<seq<string>>)
    requires Working(s, w, n) && StepResult(w, n) == Returned(report, extra, true) && !Skipped(w, n)
    ensures var spec := w.specs[n];
            var t := Record(Emit(AddStep(s, spec.name, report), StepCompleted(spec.name)), spec.name, SuccessStatus);
            && Closing(t, w, n) && spec.name in t.steps && t.steps[spec.name] == report
  {
    var spec := w.specs[n];
    NameIsNew(w, n, n);
    var t := Record(Emit(AddStep(s, spec.name, report), StepCompleted(spec.name)), spec.name, SuccessStatus);
    assert t.order == s.order + [spec.name] && t.steps == s.steps[spec.name := report];
    ClosingFrom(s, t, w, n);
  }

  /** The filed trailers report trips the gate exactly when the returned one should. */
  predicate TrailersFiled(s: Core, w: World)
    requires |w.specs| == STEPS
  {
    && Trailers in s.steps
    && (s.steps[Trailers].status == Some("error") && !w.continueOnTrailerError <==> TrailersGateTrips(w))
  }

  lemma CallKeeps(s: Core, w: World, n: nat)
    requires Cleared(s, w, n) && !Skipped(w, n)
    ensures var (t, signal) := Call(s, w, w.specs[n]);
            && RequestHonored(t)
            && (signal == Escaped <==> StepResult(w, n).Escapes?)
            && (signal == CriticalAbort <==> w.specs[n].critical && Crashes(w, n))
            && (signal == Continue || signal == Escaped || signal == CriticalAbort)
            && (signal == Escaped ==> Working(t, w, n))
            && (signal != Escaped ==> StepsEnded(t, w, n + 1) && ModeOf(w.specs, t.trace) == Ready(n + 1, false))
            && (signal == Continue && n == TRAILERS ==>
                  TrailersFiled(t, w))
  {
    StartKeeps(s, w, n);
    var spec := w.specs[n];
    var s1 := Tick(Started(s, w, spec), w);
    match StepResult(w, n)
    case Escapes =>
    case Raised => CrashKeeps(s1, w, n, None);
    case Returned(report, extra, accepted) =>
      if accepted {
        CompletionKeeps(s1, w, n, report, extra);
        var ended := Emit(AddStep(s1, spec.name, report), StepCompleted(spec.name));
        PublishKeeps(Record(ended, spec.name, SuccessStatus), w, n, extra);
      } else {
        CrashKeeps(s1, w, n, extra);
      }
  }

  /** What one turn of the step loop may lead to. */
  ghost predicate StepLeads(t: Core, w: World, signal: Signal, n: nat) {
    && (signal == Continue ==> AtBoundary(t, w, n + 1))
    && (signal == Interrupted || signal == Escaped ==> StoppedAt(t, w, signal, n))
    && (signal == CriticalAbort || signal == Failed ==> StoppedAt(t, w, signal, n + 1))
  }

  lemma BetweenLeads(s: Core, w: World, n: nat)
    requires n < STEPS && StepsEnded(s, w, n + 1)
    requires ModeOf(w.specs, s.trace) == Ready(n + 1, false) && RequestHonored(s)
    requires AllPass(w, n) && (Skipped(w, n) || !StepResult(w, n).Escapes?)
    requires !(w.specs[n].critical && Crashes(w, n) && !Skipped(w, n))
    requires n == TRAILERS ==> TrailersFiled(s, w)
    ensures StepLeads(s, w, Between(s, w, w.specs[n].name), n)
  {
    assert w.specs[n].name == Sort ==> n == SORT;
    assert w.specs[n].name == Scrape ==> n == SCRAPE;
    assert w.specs[n].name == Trailers ==> n == TRAILERS;
  }

  lemma StepKeeps(s: Core, w: World, n: nat)
    requires AtBoundary(s, w, n) && n < STEPS
    ensures StepLeads(Step(s, w, n).0, w, Step(s, w, n).1, n)
  {
    BoundaryKeeps(s, w, n);
    var (s1, boundary) := Boundary(s, w, n);
    if boundary == Continue {
      TickKeeps(s1, w);
      var s2 := Tick(s1, w);
      assert Cleared(s2, w, n);
      if w.specs[n].skips && NoVerifiedItems(s2) {
        SkipKeeps(s2, w, n);
        BetweenLeads(Skip(s2, w.specs[n].name), w, n);
      } else {
        CallKeeps(s2, w, n);
        var (s3, called) := Call(s2, w, w.specs[n]);
        if called == Continue {
          BetweenLeads(s3, w, n);
        }
      }
    }
  }

  lemma {:induction false} RunFromStops(s: Core, w: World, i: nat) returns (n: nat)
    requires AtBoundary(s, w, i)
    ensures n <= STEPS && i <= n && StoppedAt(RunFrom(s, w, i).0, w, RunFrom(s, w, i).1, n)
    decreases STEPS - i
  {
    if i == STEPS {
      n := i;
    } else {
      StepKeeps(s, w, i);
      var (t, signal) := Step(s, w, i);
      if signal == Continue {
        n := RunFromStops(t, w, i + 1);
      } else {
        n := if signal == Interrupted || signal == Escaped then i else i + 1;
      }
    }
  }

  /** Every run stops for one of the five reasons, after some number `n` of ended steps. */
  lemma RunStops(w: World) returns (n: nat, last: Core)
    requires Shaped(w)
    ensures StoppedAt(last, w, Run(w).1, n) && Run(w).0 == Emit(last, PipelineEnded)
  {
    AfterEmit(w.specs, [], PipelineStarted);
    assert [] + [PipelineStarted] == [PipelineStarted];
    assert ModeOf(w.specs, []) == Begin;
    var first := Emit(FRESH, PipelineStarted);
    assert AtBoundary(first, w, 0);
    n := RunFromStops(first, w, 0);
    last := RunFrom(first, w, 0).0;
  }

  // ---------------------------------------------------------------- main results

  /** The event log of every run is one sentence of the grammar: `PipelineStarted`; the steps of a
      prefix of STEP_SPECS in order, each optionally preceded by a pause and resume; a last unmatched
      pause only when interrupted; `PipelineEnded` exactly once, at the end.  Only an exception that is
      not an `Exception` leaves a last step started and not ended. */
  lemma EventGrammar(w: World)
    requires Shaped(w)
    ensures var (s, signal) := Run(w);
            && (signal != Escaped ==> ModeOf(w.specs, s.trace) == Over)
            && (signal == Escaped ==> ModeOf(w.specs, s.trace) == OverMidStep)
            && (ModeOf(w.specs, s.trace[..|s.trace| - 1]).InPause? ==> signal == Interrupted)
  {
    var n, last := RunStops(w);
    AfterEmit(w.specs, last.trace, PipelineEnded);
    assert (last.trace + [PipelineEnded])[..|last.trace|] == last.trace;
  }

  /** Whatever moment a shutdown is requested at, at most one more step starts, and the history says
      `killed` only if it was requested. */
  lemma AtMostOneStepAfterShutdown(w: World)
    requires Shaped(w)
    ensures StartedAfterRequest(Run(w).0.trace) <= 1
    ensures OutcomeOf(Run(w).1) == Killed ==> Requested(Run(w).0.trace)
  {
    var n, last := RunStops(w);
    AfterEmit(w.specs, last.trace, PipelineEnded);
  }

  /** The event log, the report, the history writes and the calls cover the same prefix of the step
      list, each step ending with the event, report and status that match what its callable did. */
  lemma BooksAgree(w: World) returns (n: nat)
    requires Shaped(w)
    ensures n <= STEPS && EndsOf(Run(w).0.trace) == EndsFor(w, n)
    ensures Run(w).0.order == Names(w, n) && Run(w).0.steps == ReportsFor(w, n) && Run(w).0.recorded == EntriesFor(w, n)
    ensures Run(w).1 != Escaped ==> Run(w).0.calls == CallsFor(w, n)
    ensures Run(w).1 == Escaped ==> n < STEPS && Run(w).0.calls == CallsFor(w, n + 1)
    ensures Run(w).1 == Continue ==> n == STEPS
    // In the log, too, exactly these n steps have started and ended when the run ends.
    ensures var mode := ModeOf(w.specs, Run(w).0.trace[..|Run(w).0.trace| - 1]);
            mode == if Run(w).1 == Escaped then InStep(n) else if mode.InPause? then InPause(n) else Ready(n, false)
  {
    var m, last := RunStops(w);
    AfterEmit(w.specs, last.trace, PipelineEnded);
    assert (last.trace + [PipelineEnded])[..|last.trace|] == last.trace;
    n := m;
  }

  // ---------------------------------------------------------------- which request is honoured where

  function PollsAt(w: World, i: nat): nat {
    if w.pauses(i).Some? then w.pauses(i).value else 0
  }

  /** The moments that pass in step `i`'s boundary: its check, and when paused the pause and each poll. */
  function BoundaryMoments(w: World, i: nat): nat {
    1 + (if w.pauses(i).Some? then 1 + PollsAt(w, i) else 0)
  }

  /** The moment step `i`'s boundary is reached, when every step before it passes. */
  function ReachedAt(w: World, i: nat): nat
    requires |w.specs| == STEPS && i <= STEPS
  {
    if i == 0 then 0
    else ReachedAt(w, i - 1) + BoundaryMoments(w, i - 1) + 1 + (if Skipped(w, i - 1) then 0 else 1)
  }

  /** The last moment a request may land at for step `i`'s boundary to see it: its check, or the last
      poll that finds the pause sentinel. */
  function LastSeen(w: World, i: nat): nat
    requires |w.specs| == STEPS && i < STEPS
  {
    ReachedAt(w, i) + PollsAt(w, i)
  }

  /** The moment step `i` starts at. */
  function StartsAt(w: World, i: nat): nat
    requires |w.specs| == STEPS && i < STEPS
  {
    ReachedAt(w, i) + BoundaryMoments(w, i) + 1
  }

  /** The flag is up exactly when the request's moment has passed. */
  predicate Timed(s: Core, w: World) {
    s.shutdown <==> w.shutdownAt < s.moment
  }

  lemma {:induction false} PauseLoopTimed(s: Core, w: World, polls: nat)
    requires Timed(s, w)
    ensures var (t, signal) := PauseLoop(s, w, polls);
            && Timed(t, w)
            && (signal == Interrupted <==> polls > 0 && w.shutdownAt < s.moment + polls - 1)
            && (signal == Continue ==> t.moment == s.moment + polls)
    decreases polls
  {
    if polls > 0 && !s.shutdown {
      PauseLoopTimed(Tick(s, w), w, polls - 1);
    }
  }

  /** A boundary stops the run exactly when the request lands no later than what it sees. */
  lemma BoundaryTimed(s: Core, w: World, i: nat)
    requires Timed(s, w)
    ensures var (t, signal) := Boundary(s, w, i);
            && Timed(t, w)
            && (signal == Interrupted <==> w.shutdownAt <= s.moment + PollsAt(w, i))
            && (signal == Continue ==> t.moment == s.moment + BoundaryMoments(w, i))
  {
    var s1 := Tick(s, w);
    if !s1.shutdown && w.pauses(i).Some? {
      PauseLoopTimed(Tick(Emit(s1, PipelinePaused), w), w, w.pauses(i).value);
    }
  }

  /** Why step `i`, which does not pass, stops the run. */
  function StopOf(w: World, i: nat): Signal
    requires |w.specs| == STEPS && i < STEPS
  {
    if !Skipped(w, i) && StepResult(w, i).Escapes? then Escaped
    else if w.specs[i].critical && Crashes(w, i) then CriticalAbort
    else Failed
  }

  /** Same clock, same flag, nothing more started. */
  predicate NothingStarts(s: Core, t: Core) {
    s.moment == t.moment && s.shutdown == t.shutdown && StartedAfterRequest(s.trace) == StartedAfterRequest(t.trace)
  }

  lemma CrashStartsNothing(s: Core, w: World, spec: StepSpec, extra: Option<seq<string>>)
    ensures NothingStarts(s, Crash(s, spec, extra).0)
  {
    AfterEmit(w.specs, s.trace, StepErrored(spec.name));
  }

  lemma CompletionStartsNothing(s: Core, w: World, spec: StepSpec, report: StepReport, extra: Option<seq<string>>)
    ensures var t := Record(Emit(AddStep(s, spec.name, report), StepCompleted(spec.name)), spec.name, SuccessStatus);
            NothingStarts(s, Publish(t, spec, extra))
  {
    AfterEmit(w.specs, s.trace, StepCompleted(spec.name));
  }

  lemma TickTimed(s: Core, w: World)
    requires Timed(s, w)
    ensures Timed(Tick(s, w), w) && Tick(s, w).moment == s.moment + 1
    ensures StartedAfterRequest(Tick(s, w).trace) == StartedAfterRequest(s.trace)
  {
    AfterEmit(w.specs, s.trace, ShutdownRequested);
  }

  lemma StartTimed(s: Core, w: World, spec: StepSpec)
    requires Timed(s, w)
    ensures var t := Tick(Started(s, w, spec), w);
            && Timed(t, w) && t.moment == s.moment + 1
            && StartedAfterRequest(t.trace) == StartedAfterRequest(s.trace) + (if Requested(s.trace) then 1 else 0)
  {
    AfterEmit(w.specs, s.trace, StepStarted(spec.name));
    TickTimed(Started(s, w, spec), w);
  }

  lemma CallTimed(s: Core, w: World, spec: StepSpec)
    requires Timed(s, w)
    ensures var t := Call(s, w, spec).0;
            && Timed(t, w) && t.moment == s.moment + 1
            && StartedAfterRequest(t.trace) == StartedAfterRequest(s.trace) + (if Requested(s.trace) then 1 else 0)
  {
    StartTimed(s, w, spec);
    var s2 := Tick(Started(s, w, spec), w);
    match w.results(Resolve(w.overrides, spec.name))
    case Escapes =>
    case Raised => CrashStartsNothing(s2, w, spec, None);
    case Returned(report, extra, accepted) =>
      if accepted {
        CompletionStartsNothing(s2, w, spec, report, extra);
      } else {
        CrashStartsNothing(s2, w, spec, extra);
      }
  }

  lemma SkipTimed(s: Core, w: World, name: Name)
    requires Timed(s, w)
    ensures Timed(Skip(s, name), w) && Skip(s, name).moment == s.moment
    ensures StartedAfterRequest(Skip(s, name).trace) ==
            StartedAfterRequest(s.trace) + (if Requested(s.trace) then 1 else 0)
  {
    AfterEmit(w.specs, s.trace, StepStarted(name));
    AfterEmit(w.specs, s.trace + [StepStarted(name)], StepCompleted(name));
  }

  /** Boundary `i` is reached when it should be, and no boundary before saw a request. */
  predicate OnTime(s: Core, w: World, i: nat) {
    && |w.specs| == STEPS && i <= STEPS && Timed(s, w) && s.moment == ReachedAt(w, i)
    && (i > 0 ==> w.shutdownAt > LastSeen(w, i - 1))
  }

  /** A request lands between what boundary `i` sees last and the start of step `i`. */
  predicate LandsBeforeStart(w: World, i: nat)
    requires |w.specs| == STEPS && i < STEPS
  {
    LastSeen(w, i) < w.shutdownAt < StartsAt(w, i)
  }

  lemma {:induction false} AllPassGives(w: World, n: nat, i: nat)
    requires |w.specs| == STEPS && i < n <= STEPS && AllPass(w, n)
    ensures Passes(w, i)
  {
    if i < n - 1 {
      AllPassGives(w, n - 1, i);
    }
  }

  lemma CallKeepsGoing(s: Core, w: World, spec: StepSpec)
    ensures Call(s, w, spec).1 != Interrupted
  {
  }

  /** What step `i` does to the clock and the count of late starts, once its boundary let it through. */
  lemma WorkTimed(s: Core, w: World, i: nat)
    requires Shaped(w) && i < STEPS && Timed(s, w) && Cleared(s, w, i) && s.moment == StartsAt(w, i)
    requires w.shutdownAt > LastSeen(w, i)
    ensures var t := if w.specs[i].skips && NoVerifiedItems(s) then Skip(s, w.specs[i].name)
                     else Call(s, w, w.specs[i]).0;
            && Timed(t, w) && t.moment == ReachedAt(w, i + 1)
            && StartedAfterRequest(t.trace) == if LandsBeforeStart(w, i) then 1 else 0
  {
    if w.specs[i].skips && NoVerifiedItems(s) {
      SkipTimed(s, w, w.specs[i].name);
    } else {
      CallTimed(s, w, w.specs[i]);
    }
  }

  lemma ClearedInTime(s: Core, w: World, i: nat)
    requires AtBoundary(s, w, i) && OnTime(s, w, i) && i < STEPS && Boundary(s, w, i).1 == Continue
    ensures var s2 := Tick(Boundary(s, w, i).0, w);
            Cleared(s2, w, i) && Timed(s2, w) && s2.moment == StartsAt(w, i) && w.shutdownAt > LastSeen(w, i)
  {
    BoundaryKeeps(s, w, i);
    BoundaryTimed(s, w, i);
    TickKeeps(Boundary(s, w, i).0, w);
  }

  lemma StepTimed(s: Core, w: World, i: nat)
    requires AtBoundary(s, w, i) && OnTime(s, w, i) && i < STEPS
    ensures var (t, signal) := Step(s, w, i);
            && (signal == Interrupted <==> w.shutdownAt <= LastSeen(w, i))
            && (signal == Continue ==> OnTime(t, w, i + 1))
  {
    BoundaryTimed(s, w, i);
    if Boundary(s, w, i).1 == Continue {
      ClearedInTime(s, w, i);
      var s2 := Tick(Boundary(s, w, i).0, w);
      WorkTimed(s2, w, i);
      CallKeepsGoing(s2, w, w.specs[i]);
    } else {
      BoundaryKeeps(s, w, i);
    }
  }

  lemma StepStartsLate(s: Core, w: World, i: nat)
    requires AtBoundary(s, w, i) && OnTime(s, w, i) && i < STEPS
    ensures StartedAfterRequest(Step(s, w, i).0.trace) ==
            if w.shutdownAt <= LastSeen(w, i) then StartedAfterRequest(s.trace)
            else if LandsBeforeStart(w, i) then 1 else 0
  {
    BoundaryTimed(s, w, i);
    BoundaryKeeps(s, w, i);
    if Boundary(s, w, i).1 == Continue {
      ClearedInTime(s, w, i);
      WorkTimed(Tick(Boundary(s, w, i).0, w), w, i);
    }
  }

  /** How a boundary that sees no request goes on: step `i` decides it. */
  lemma StepSignal(s: Core, w: World, i: nat)
    requires AtBoundary(s, w, i) && i < STEPS
    ensures var signal := Step(s, w, i).1;
            signal != Interrupted ==> signal == if Passes(w, i) then Continue else StopOf(w, i)
  {
    StepKeeps(s, w, i);
  }

  lemma {:induction false} BoundariesFollow(w: World, i: nat, j: nat)
    requires |w.specs| == STEPS && i <= j < STEPS
    ensures LastSeen(w, i) <= LastSeen(w, j)
    ensures i < j ==> StartsAt(w, i) <= LastSeen(w, j)
  {
    if i < j {
      BoundariesFollow(w, i, j - 1);
    }
  }

  lemma {:induction false} BookLengths(w: World, n: nat)
    requires |w.specs| == STEPS && n <= STEPS
    ensures |Names(w, n)| == n && |CallsFor(w, n)| <= n
  {
    if n > 0 {
      BookLengths(w, n - 1);
    }
  }

  lemma StoppedBooks(t: Core, w: World, signal: Signal, n: nat)
    requires StoppedAt(t, w, signal, n)
    ensures |t.order| == n && |t.calls| <= if signal == Escaped then n + 1 else n
  {
    BookLengths(w, n);
    if signal == Escaped {
      BookLengths(w, n + 1);
    }
  }

  /** When the loop stops in step `i`, it leaves the books of at most `i + 1` steps; of `i` when its
      boundary saw the request. */
  lemma StepBooks(s: Core, w: World, i: nat)
    requires AtBoundary(s, w, i) && OnTime(s, w, i) && i < STEPS && Step(s, w, i).1 != Continue
    ensures var t, n := Step(s, w, i).0, if w.shutdownAt <= LastSeen(w, i) then i else i + 1;
            |t.order| <= n && |t.calls| <= n
  {
    StepTimed(s, w, i);
    StepKeeps(s, w, i);
    var (t, signal) := Step(s, w, i);
    StoppedBooks(t, w, signal, if signal == Interrupted || signal == Escaped then i else i + 1);
  }

  /** One turn of the loop, from boundary `i`: how it goes on, and what it leaves. */
  lemma OneTurn(s: Core, w: World, i: nat) returns (t: Core, signal: Signal)
    requires AtBoundary(s, w, i) && OnTime(s, w, i) && i < STEPS
    ensures RunFrom(s, w, i) == if signal == Continue then RunFrom(t, w, i + 1) else (t, signal)
    ensures signal == if w.shutdownAt <= LastSeen(w, i) then Interrupted
                      else if Passes(w, i) then Continue
                      else StopOf(w, i)
    ensures signal == Continue ==> AtBoundary(t, w, i + 1) && OnTime(t, w, i + 1)
    ensures StartedAfterRequest(t.trace) ==
            if signal == Interrupted then StartedAfterRequest(s.trace) else if LandsBeforeStart(w, i) then 1 else 0
    ensures signal != Continue ==>
              var n := if signal == Interrupted then i else i + 1;
              |t.order| <= n && |t.calls| <= n
  {
    StepTimed(s, w, i);
    StepKeeps(s, w, i);
    StepSignal(s, w, i);
    StepStartsLate(s, w, i);
    t, signal := Step(s, w, i).0, Step(s, w, i).1;
    if signal != Continue {
      StepBooks(s, w, i);
    }
  }

  /** The signal the loop ends with from boundary `i` on, `f` being the first step that does not pass
      (nine if all do): a request is seen by the last boundary reached or not at all. */
  lemma {:induction false} RunFromEnds(s: Core, w: World, i: nat, f: nat)
    requires AtBoundary(s, w, i) && OnTime(s, w, i) && i <= f <= STEPS && AllPass(w, f) && (f < STEPS ==> !Passes(w, f))
    ensures RunFrom(s, w, i).1 ==
            if w.shutdownAt <= LastSeen(w, if f < STEPS then f else STEPS - 1) then Interrupted
            else if f == STEPS then Continue
            else StopOf(w, f)
    decreases STEPS - i
  {
    if i < STEPS {
      var t, signal := OneTurn(s, w, i);
      BoundariesFollow(w, i, if f < STEPS then f else STEPS - 1);
      if i < f {
        AllPassGives(w, f, i);
      }
      if signal == Continue {
        RunFromEnds(t, w, i + 1, f);
      }
    }
  }

  lemma OnTimeAtStart(w: World)
    requires Shaped(w)
    ensures AtBoundary(Emit(FRESH, PipelineStarted), w, 0) && OnTime(Emit(FRESH, PipelineStarted), w, 0)
    ensures StartedAfterRequest(Emit(FRESH, PipelineStarted).trace) == 0
  {
    AfterEmit(w.specs, [], PipelineStarted);
    assert [] + [PipelineStarted] == [PipelineStarted];
    assert ModeOf(w.specs, []) == Begin;
  }

  /** The first step from `i` on that does not pass, nine if all do. */
  function FirstFailure(w: World, i: nat): (f: nat)
    requires |w.specs| == STEPS && i <= STEPS && AllPass(w, i)
    ensures i <= f <= STEPS && AllPass(w, f) && (f < STEPS ==> !Passes(w, f))
    decreases STEPS - i
  {
    if i == STEPS || !Passes(w, i) then i else FirstFailure(w, i + 1)
  }

  /** How every run ends, whenever a shutdown is requested. */
  lemma RunEnds(w: World, f: nat)
    requires Shaped(w) && f <= STEPS && AllPass(w, f) && (f < STEPS ==> !Passes(w, f))
    ensures Run(w).1 ==
            if w.shutdownAt <= LastSeen(w, if f < STEPS then f else STEPS - 1) then Interrupted
            else if f == STEPS then Continue
            else StopOf(w, f)
  {
    OnTimeAtStart(w);
    RunFromEnds(Emit(FRESH, PipelineStarted), w, 0, f);
  }

  /** A run goes through all steps iff every step passes and no request lands in time for the last
      boundary. */
  lemma CompletesIff(w: World)
    requires Shaped(w)
    ensures Run(w).1 == Continue <==> AllPass(w, STEPS) && w.shutdownAt > LastSeen(w, STEPS - 1)
  {
    var f := FirstFailure(w, 0);
    RunEnds(w, f);
    if f < STEPS && AllPass(w, STEPS) {
      AllPassGives(w, STEPS, f);
    }
  }

  /** The first step that does not pass decides how a run ends and which outcome the history gets,
      unless a request is seen by its boundary or an earlier one; a critical crash returns normally, so
      the history then still says `success`, and so it does for what is not an `Exception`. */
  lemma OutcomeOfFirstFailure(w: World, i: nat)
    requires Shaped(w) && i < STEPS && !Passes(w, i) && AllPass(w, i)
    ensures Run(w).1 == if w.shutdownAt <= LastSeen(w, i) then Interrupted else StopOf(w, i)
    ensures OutcomeOf(Run(w).1) ==
            if w.shutdownAt <= LastSeen(w, i) then Killed
            else if (Skipped(w, i) || !StepResult(w, i).Escapes?) && !(w.specs[i].critical && Crashes(w, i)) then Error
            else Success
  {
    RunEnds(w, i);
  }

  /** The history says `killed` exactly when a request lands in time to be seen by the boundary, or by a
      poll of the pause, of a step that all earlier ones pass to. */
  lemma KilledIff(w: World)
    requires Shaped(w)
    ensures OutcomeOf(Run(w).1) == Killed <==>
            exists i: nat :: i < STEPS && AllPass(w, i) && w.shutdownAt <= LastSeen(w, i)
  {
    var f := FirstFailure(w, 0);
    RunEnds(w, f);
    if i: nat :| i < STEPS && AllPass(w, i) && w.shutdownAt <= LastSeen(w, i) {
      if f < i {
        AllPassGives(w, i, f);
      }
      BoundariesFollow(w, i, if f < STEPS then f else STEPS - 1);
    }
  }

  /** The history says `success` exactly when the run goes through, or its first step that does not pass
      is a critical crash or an escaping exception and no request was seen up to it. */
  lemma SuccessIff(w: World)
    requires Shaped(w)
    ensures OutcomeOf(Run(w).1) == Success <==>
            || (AllPass(w, STEPS) && w.shutdownAt > LastSeen(w, STEPS - 1))
            || exists i: nat :: i < STEPS && AllPass(w, i) && !Passes(w, i) && w.shutdownAt > LastSeen(w, i)
                                && (StopOf(w, i) == CriticalAbort || StopOf(w, i) == Escaped)
  {
    var f := FirstFailure(w, 0);
    RunEnds(w, f);
    if AllPass(w, STEPS) && f < STEPS {
      AllPassGives(w, STEPS, f);
    }
    if i: nat :| i < STEPS && AllPass(w, i) && !Passes(w, i) && w.shutdownAt > LastSeen(w, i)
                 && (StopOf(w, i) == CriticalAbort || StopOf(w, i) == Escaped) {
      RunEnds(w, i);
    }
  }

  // ---------------------------------------------------------------- what starts after a request

  lemma {:induction false} RunFromStartsLate(s: Core, w: World, i: nat)
    requires AtBoundary(s, w, i) && OnTime(s, w, i) && StartedAfterRequest(s.trace) <= 1
    ensures StartedAfterRequest(RunFrom(s, w, i).0.trace) ==
            if StartedAfterRequest(s.trace) == 1
               || exists j: nat :: i <= j < STEPS && AllPass(w, j) && LandsBeforeStart(w, j)
            then 1 else 0
    decreases STEPS - i
  {
    if i < STEPS {
      var t, signal := OneTurn(s, w, i);
      forall j: nat | i < j < STEPS
        ensures StartsAt(w, i) <= LastSeen(w, j)
        ensures AllPass(w, j) ==> Passes(w, i)
      {
        BoundariesFollow(w, i, j);
        if AllPass(w, j) {
          AllPassGives(w, j, i);
        }
      }
      if signal == Continue {
        RunFromStartsLate(t, w, i + 1);
      }
    }
  }

  /** A step starts after the request exactly when the request lands between the last look a boundary
      takes and the start of its step, which all earlier ones pass to; then it is the only one. */
  lemma LateStepIff(w: World)
    requires Shaped(w)
    ensures StartedAfterRequest(Run(w).0.trace) ==
            if exists i: nat :: i < STEPS && AllPass(w, i) && LandsBeforeStart(w, i) then 1 else 0
  {
    OnTimeAtStart(w);
    var first := Emit(FRESH, PipelineStarted);
    RunFromStartsLate(first, w, 0);
    AfterEmit(w.specs, RunFrom(first, w, 0).0.trace, PipelineEnded);
  }

  lemma {:induction false} RunFromReaches(s: Core, w: World, i: nat, k: nat)
    requires AtBoundary(s, w, i) && OnTime(s, w, i) && i <= k < STEPS && w.shutdownAt <= LastSeen(w, k)
    ensures |RunFrom(s, w, i).0.order| <= k && |RunFrom(s, w, i).0.calls| <= k
    decreases STEPS - i
  {
    var t, signal := OneTurn(s, w, i);
    if i < k && signal == Continue {
      RunFromReaches(t, w, i + 1, k);
    } else if i == k {
      assert w.shutdownAt <= LastSeen(w, i) && signal == Interrupted;
    }
  }

  /** A request that lands in time for boundary `k` leaves no step from `k` on started: at most `k` steps
      are in the report, and at most `k` callables have run. */
  lemma TimelyRequestStopsAt(w: World, k: nat)
    requires Shaped(w) && k < STEPS && w.shutdownAt <= LastSeen(w, k)
    ensures |Run(w).0.order| <= k && |Run(w).0.calls| <= k
  {
    OnTimeAtStart(w);
    RunFromReaches(Emit(FRESH, PipelineStarted), w, 0, k);
  }

  // ---------------------------------------------------------------- dispatch

  lemma {:induction false} CallsAreSpecSteps(w: World, n: nat, k: nat)
    requires Shaped(w) && n <= STEPS && k < |CallsFor(w, n)|
    ensures exists i :: 0 <= i < n && !Skipped(w, i)
                        && CallsFor(w, n)[k] == (w.specs[i].name, Resolve(w.overrides, w.specs[i].name))
  {
    if k < |CallsFor(w, n - 1)| {
      CallsAreSpecSteps(w, n - 1, k);
    }
  }

  /** Overrides replace steps, they never add one: every callable invoked is the resolved one of a
      step of STEP_SPECS. */
  lemma OnlySpecStepsRun(w: World, k: nat)
    requires Shaped(w)
    requires k < |Run(w).0.calls|
    ensures exists i :: 0 <= i < STEPS
              && Run(w).0.calls[k] == (w.specs[i].name, Resolve(w.overrides, w.specs[i].name))
  {
    var n := BooksAgree(w);
    CallsAreSpecSteps(w, if Run(w).1 == Escaped then n + 1 else n, k);
  }

  predicate DispatchedAt(calls: seq<(Name, Adapter)>, k: nat) {
    k < |calls| && calls[k].0 == Dispatch
  }

  lemma DispatchIsLast(w: World, k: nat)
    requires Shaped(w) && DispatchedAt(Run(w).0.calls, k)
    ensures k == |Run(w).0.calls| - 1 && AllPass(w, DISPATCH) && !Skipped(w, DISPATCH)
  {
    var n, last := RunStops(w);
    var m := if Run(w).1 == Escaped then n + 1 else n;
    CallsAreSpecSteps(w, m, k);
    if k < |CallsFor(w, DISPATCH)| {
      CallsAreSpecSteps(w, DISPATCH, k);
    }
  }

  /** In every run the dispatch callable is invoked at most once, last, and only if no critical step
      crashed, verify's callable returned a non-empty list in this very run, and the trailers report
      was not an error (or the caller opted out of that gate). */
  lemma DispatchIsGuarded(w: World, k: nat)
    requires Shaped(w) && DispatchedAt(Run(w).0.calls, k)
    ensures k == |Run(w).0.calls| - 1
    ensures forall i :: 0 <= i < DISPATCH ==> (w.specs[i].critical ==> !Crashes(w, i)) && !StepResult(w, i).Escapes?
    ensures var verify := StepResult(w, VERIFY);
            verify.Returned? && verify.extra.Some? && verify.extra.value != []
    ensures w.continueOnTrailerError || !StepResult(w, TRAILERS).Returned? || !StepResult(w, TRAILERS).payloadAccepted
            || StepResult(w, TRAILERS).report.status != Some("error")
  {
    DispatchIsLast(w, k);
    AllPassMeans(w, DISPATCH);
    forall i | 0 <= i < DISPATCH
      ensures (w.specs[i].critical ==> !Crashes(w, i)) && !StepResult(w, i).Escapes?
    {
      assert Passes(w, i);
    }
    assert Passes(w, TRAILERS);
  }

  /** A run that gets a request in time for the boundary of `dispatch` does not call it. */
  lemma NoDispatchInTime(w: World, k: nat)
    requires Shaped(w) && w.shutdownAt <= LastSeen(w, DISPATCH)
    ensures !DispatchedAt(Run(w).0.calls, k)
  {
    var n := BooksAgree(w);
    TimelyRequestStopsAt(w, DISPATCH);
    BookLengths(w, n);
    if DispatchedAt(Run(w).0.calls, k) {
      DispatchIsLast(w, k);
      RunEnds(w, FirstFailure(w, DISPATCH));
      CallsAreSpecSteps(w, n, k);
      assert false;
    }
  }

  /** A run whose steps up to `dispatch` pass, and which sees no request by then, has called it when
      verify handed over something. */
  lemma DispatchIsReached(w: World)
    requires Shaped(w) && AllPass(w, DISPATCH) && VerifiedItems(w) != [] && w.shutdownAt > LastSeen(w, DISPATCH)
    ensures DispatchedAt(Run(w).0.calls, |CallsFor(w, DISPATCH)|)
  {
    var n, last := RunStops(w);
    var f := FirstFailure(w, DISPATCH);
    RunEnds(w, f);
    if Run(w).1 == Escaped {
      FirstFailureIsUnique(w, f, n);
    }
    assert Run(w).0.calls == CallsFor(w, STEPS);
  }

  lemma FirstFailureIsUnique(w: World, i: nat, j: nat)
    requires |w.specs| == STEPS && i < STEPS && j < STEPS
    requires AllPass(w, i) && !Passes(w, i) && AllPass(w, j) && !Passes(w, j)
    ensures i == j
  {
    if i < j {
      AllPassGives(w, j, i);
    } else if j < i {
      AllPassGives(w, i, j);
    }
  }

  /** Dispatch is called exactly when every step before it passes, verify handed over something, and no
      request lands in time for its boundary. */
  lemma DispatchedIff(w: World)
    requires Shaped(w)
    ensures (exists k: nat :: DispatchedAt(Run(w).0.calls, k)) <==>
            AllPass(w, DISPATCH) && VerifiedItems(w) != [] && w.shutdownAt > LastSeen(w, DISPATCH)
  {
    if k: nat :| DispatchedAt(Run(w).0.calls, k) {
      DispatchIsLast(w, k);
      if w.shutdownAt <= LastSeen(w, DISPATCH) {
        NoDispatchInTime(w, k);
      }
    }
    if AllPass(w, DISPATCH) && VerifiedItems(w) != [] && w.shutdownAt > LastSeen(w, DISPATCH) {
      DispatchIsReached(w);
    }
  }

  // ---------------------------------------------------------------- what a production run leaves

  const PRODUCTION_ORDER: seq<Name> := [Ingest, Sort, Clean, Scrape, Cleanup, Enforce, Verify, Trailers, Dispatch]

  lemma ProductionNames(w: World)
    requires w.specs == STEP_SPECS
    ensures Shaped(w) && Names(w, STEPS) == PRODUCTION_ORDER
  {
    StepSpecsAreShaped(w);
    assert Names(w, 1) == [Ingest];
    assert Names(w, 3) == [Ingest, Sort, Clean];
    assert Names(w, 5) == [Ingest, Sort, Clean, Scrape, Cleanup];
    assert Names(w, 7) == [Ingest, Sort, Clean, Scrape, Cleanup, Enforce, Verify];
  }

  lemma {:induction false} NamesPrefix(w: World, n: nat, m: nat)
    requires |w.specs| == STEPS && n <= m <= STEPS
    ensures |Names(w, n)| == n && |Names(w, m)| == m
    ensures Names(w, n) == Names(w, m)[..n]
    decreases m
  {
    if n == m {
      BookLengths(w, n);
    } else {
      NamesPrefix(w, n, m - 1);
    }
  }

  /** The steps the given ending events belong to. */
  function EndedNames(ends: seq<Event>): seq<Name>
    requires forall e :: e in ends ==> e.StepCompleted? || e.StepErrored?
  {
    if ends == [] then [] else EndedNames(ends[..|ends| - 1]) + [ends[|ends| - 1].step]
  }

  lemma {:induction false} EndedNamesOf(w: World, n: nat)
    requires |w.specs| == STEPS && n <= STEPS
    ensures forall e :: e in EndsFor(w, n) ==> e.StepCompleted? || e.StepErrored?
    ensures EndedNames(EndsFor(w, n)) == Names(w, n)
  {
    if n > 0 {
      EndedNamesOf(w, n - 1);
      var ends := EndsFor(w, n);
      assert ends[..|ends| - 1] == EndsFor(w, n - 1);
    }
  }

  lemma {:induction false} RecordedNamesOf(w: World, n: nat)
    requires |w.specs| == STEPS && n <= STEPS
    ensures |EntriesFor(w, n)| == n
    ensures forall i :: 0 <= i < n ==> EntriesFor(w, n)[i].name == w.specs[i].name
  {
    if n > 0 {
      RecordedNamesOf(w, n - 1);
    }
  }

  /** Every production run goes through the nine steps by name: what is reported, what ended in the event
      log and what was written to the history is the same prefix of this order. */
  lemma ProductionOrder(w: World) returns (n: nat)
    requires w.specs == STEP_SPECS
    ensures var s := Run(w).0;
            && n <= |PRODUCTION_ORDER| && s.order == PRODUCTION_ORDER[..n]
            && (forall e :: e in EndsOf(s.trace) ==> e.StepCompleted? || e.StepErrored?)
            && EndedNames(EndsOf(s.trace)) == PRODUCTION_ORDER[..n]
            && |s.recorded| == n && forall i :: 0 <= i < n ==> s.recorded[i].name == PRODUCTION_ORDER[i]
    ensures Run(w).1 == Continue ==> n == |PRODUCTION_ORDER|
  {
    ProductionNames(w);
    n := BooksAgree(w);
    NamesPrefix(w, n, STEPS);
    EndedNamesOf(w, n);
    RecordedNamesOf(w, n);
    forall i | 0 <= i < n
      ensures w.specs[i].name == PRODUCTION_ORDER[i]
    {
      NamesPrefix(w, i + 1, STEPS);
    }
  }

  lemma {:induction false} ReportsAt(w: World, n: nat, i: nat)
    requires Shaped(w) && i < n <= STEPS
    ensures w.specs[i].name in ReportsFor(w, n) && ReportsFor(w, n)[w.specs[i].name] == ReportOf(w, i)
    decreases n
  {
    if i < n - 1 {
      ReportsAt(w, n - 1, i);
    }
  }

  /** What the report holds of each step that ended: a crash, or a payload the contract refuses, counts as
      one error and nothing else, with no status; a skip as one skip; anything else is the step's own
      report. */
  lemma ReportedResults(w: World, i: nat)
    requires Shaped(w) && i < |Run(w).0.order|
    ensures i < STEPS && w.specs[i].name in Run(w).0.steps
    ensures var filed := Run(w).0.steps[w.specs[i].name];
            if Skipped(w, i) then filed == StepReport(0, 1, 0, None)
            else if Crashes(w, i) then filed == StepReport(0, 0, 1, None)
            else StepResult(w, i).Returned? && filed == StepResult(w, i).report
  {
    var n := BooksAgree(w);
    BookLengths(w, n);
    ReportsAt(w, n, i);
    EndedIsReturned(w, i);
  }

  /** A step with an entry in the report returned or raised. */
  lemma EndedIsReturned(w: World, i: nat)
    requires Shaped(w) && i < STEPS && i < |Run(w).0.order|
    ensures Skipped(w, i) || !StepResult(w, i).Escapes?
  {
    var n, last := RunStops(w);
    BookLengths(w, n);
    if i < n - 1 || Run(w).1 == Continue || Run(w).1 == Interrupted || Run(w).1 == Escaped {
      AllPassGives(w, if Run(w).1 == CriticalAbort || Run(w).1 == Failed then n - 1 else n, i);
    }
  }
}
