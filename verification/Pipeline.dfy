/** The orchestrator and its run-history writer, as they update their own state. */
module Pipeline {
  import opened Options
  import opened PipelineRun

  // ---------------------------------------------------------------- run history

  /** Which writes to the history store succeed: the insert, then each later write in turn. */
  datatype Store = Store(insertOk: bool, writeOk: nat -> bool)

  datatype Row = Row(steps: seq<Entry>, outcome: Option<Outcome>)

  /** One `pipeline_run` row, or none; every write is fail-soft. */
  class PipelineRunWriter {
    const store: Store
    var row: Option<Row>
    var writes: nat

    constructor (store: Store)
      ensures this.store == store && row == None && writes == 0
    {
      this.store, this.row, this.writes := store, None, 0;
    }

    method Insert()
      requires row == None && writes == 0
      modifies this
      ensures writes == 0 && row == if store.insertOk then Some(Row([], None)) else None
    {
      if store.insertOk {
        row := Some(Row([], None));
      }
    }

    /** Reads the stored array, appends the entry and writes it back. */
    method UpdateStep(entry: Entry)
      modifies this
      ensures writes == old(writes) + 1
      ensures row == if old(row).Some? && store.writeOk(old(writes))
                     then Some(old(row).value.(steps := old(row).value.steps + [entry])) else old(row)
    {
      if row.Some? && store.writeOk(writes) {
        row := Some(row.value.(steps := row.value.steps + [entry]));
      }
      writes := writes + 1;
    }

    method Finalize(outcome: Outcome)
      modifies this
      ensures writes == old(writes) + 1
      ensures row == if old(row).Some? && store.writeOk(old(writes))
                     then Some(old(row).value.(outcome := Some(outcome))) else old(row)
    {
      if row.Some? && store.writeOk(writes) {
        row := Some(row.value.(outcome := Some(outcome)));
      }
      writes := writes + 1;
    }
  }

  /** The entries of `recorded` whose write succeeded. */
  function Persisted(recorded: seq<Entry>, store: Store): seq<Entry> {
    if recorded == [] then []
    else
      var n := |recorded| - 1;
      Persisted(recorded[..n], store) + (if store.writeOk(n) then [recorded[n]] else [])
  }

  /** `a` is `b` with some elements left out. */
  predicate Subsequence(a: seq<Entry>, b: seq<Entry>)
    decreases |b|
  {
    a == [] ||
    (b != [] && ( (a[|a| - 1] == b[|b| - 1] && Subsequence(a[..|a| - 1], b[..|b| - 1]))
                  || Subsequence(a, b[..|b| - 1])))
  }

  /** Whatever writes fail, the stored steps are those recorded, in order, some missing. */
  lemma {:induction false} PersistedIsSubsequence(recorded: seq<Entry>, store: Store)
    ensures Subsequence(Persisted(recorded, store), recorded)
    decreases |recorded|
  {
    if recorded != [] {
      var n := |recorded| - 1;
      var front := Persisted(recorded[..n], store);
      PersistedIsSubsequence(recorded[..n], store);
      var kept := Persisted(recorded, store);
      if store.writeOk(n) {
        assert kept[..|kept| - 1] == front && kept[|kept| - 1] == recorded[n];
      } else {
        assert kept == front;
      }
    }
  }

  /** When no write fails, nothing is missing. */
  lemma {:induction false} PersistedIsComplete(recorded: seq<Entry>, store: Store)
    requires forall k: nat :: k < |recorded| ==> store.writeOk(k)
    ensures Persisted(recorded, store) == recorded
    decreases |recorded|
  {
    if recorded != [] {
      var n := |recorded| - 1;
      PersistedIsComplete(recorded[..n], store);
      assert recorded[..n] + [recorded[n]] == recorded;
    }
  }

  // ---------------------------------------------------------------- the orchestrator

  class Pipeline {
    const world: World
    const writer: PipelineRunWriter?
    var trace: seq<Event>
    var steps: map<Name, StepReport>
    var order: seq<Name>
    var verified: Option<seq<string>>
    var calls: seq<(Name, Adapter)>
    var shutdownRequested: bool
    var moment: nat
    ghost var recorded: seq<Entry>

    /** Everything the run leaves behind apart from the stored history. */
    ghost function State(): Core
      reads this
    {
      Core(trace, steps, order, verified, calls, recorded, shutdownRequested, moment)
    }

    /** The stored row holds the recorded steps whose write succeeded. */
    ghost predicate HistoryInSync()
      reads this, writer
    {
      writer != null ==>
        && writer.writes == |recorded|
        && (writer.row.Some? <==> writer.store.insertOk)
        && (writer.row.Some? ==> writer.row.value == Row(Persisted(recorded, writer.store), None))
    }

    constructor (world: World, writer: PipelineRunWriter?)
      ensures this.world == world && this.writer == writer && State() == FRESH
    {
      this.world, this.writer := world, writer;
      trace, steps, order, verified, calls, recorded := [], map[], [], None, [], [];
      shutdownRequested, moment := false, 0;
    }

    method Emit(e: Event)
      modifies this`trace
      ensures State() == PipelineRun.Emit(old(State()), e)
    {
      trace := trace + [e];
    }

    /** `request_shutdown`, called from outside at an arbitrary moment. */
    method RequestShutdown()
      modifies this`trace, this`shutdownRequested
      ensures State() == PipelineRun.Emit(old(State()), ShutdownRequested).(shutdown := true)
    {
      trace := trace + [ShutdownRequested];
      shutdownRequested := true;
    }

    method Tick()
      modifies this`trace, this`shutdownRequested, this`moment
      ensures State() == PipelineRun.Tick(old(State()), world)
    {
      var now := moment;
      moment := moment + 1;
      if now == world.shutdownAt {
        RequestShutdown();
      }
    }

    method AddStep(name: Name, report: StepReport)
      modifies this`steps, this`order
      ensures State() == PipelineRun.AddStep(old(State()), name, report)
    {
      if name !in steps {
        order := order + [name];
      }
      steps := steps[name := report];
    }

    method UpdateStep(name: Name, status: Status)
      requires HistoryInSync()
      modifies this`recorded, writer
      ensures HistoryInSync() && State() == Record(old(State()), name, status)
    {
      var entry := Entry(name, status);
      ghost var longer := recorded + [entry];
      assert longer[..|recorded|] == recorded;
      if writer != null {
        writer.UpdateStep(entry);
      }
      recorded := longer;
    }

    /** `PauseController.checkpoint`: blocks while the sentinel is there; true when interrupted. */
    method Checkpoint(i: nat) returns (interrupted: bool)
      modifies this`trace, this`shutdownRequested, this`moment
      ensures (State(), if interrupted then Interrupted else Continue) ==
              match world.pauses(i)
              case None => (old(State()), Continue)
              case Some(polls) =>
                PauseLoop(PipelineRun.Tick(PipelineRun.Emit(old(State()), PipelinePaused), world), world, polls)
    {
      if world.pauses(i).None? {
        return false;
      }
      Emit(PipelinePaused);
      Tick();
      ghost var paused := State();
      var polls := world.pauses(i).value;
      while polls > 0
        invariant PauseLoop(State(), world, polls) == PauseLoop(paused, world, world.pauses(i).value)
        invariant steps == old(steps) && order == old(order) && verified == old(verified)
        invariant calls == old(calls) && recorded == old(recorded)
      {
        if shutdownRequested {
          return true;
        }
        Tick();
        polls := polls - 1;
      }
      Emit(PipelineResumed);
      interrupted := false;
    }

    method EmitSkippedStep(name: Name)
      requires HistoryInSync()
      modifies this, writer
      ensures HistoryInSync() && State() == Skip(old(State()), name)
    {
      Emit(StepStarted(name));
      AddStep(name, SKIP_REPORT);
      Emit(StepCompleted(name));
      UpdateStep(name, SkippedStatus);
    }

    /** The extras entry a step publishes. */
    method PublishExtra(spec: StepSpec, extra: Option<seq<string>>)
      modifies this`verified
      ensures State() == Publish(old(State()), spec, extra)
    {
      if spec.publishes {
        verified := Some(if extra.Some? then extra.value else []);
      }
    }

    /** The `except` branch of `_run_step`, and what a crash leads to. */
    method CrashStep(spec: StepSpec, extra: Option<seq<string>>) returns (signal: Signal)
      requires HistoryInSync()
      modifies this, writer
      ensures HistoryInSync() && (State(), signal) == Crash(old(State()), spec, extra)
    {
      Emit(StepErrored(spec.name));
      UpdateStep(spec.name, ErrorStatus);
      AddStep(spec.name, ERROR_REPORT);
      if spec.critical {
        return CriticalAbort;
      }
      PublishExtra(spec, extra);
      signal := Continue;
    }

    /** The `try` of `_run_step`: the extra is bound before the payload is validated. */
    method CallStep(spec: StepSpec) returns (signal: Signal)
      requires HistoryInSync()
      modifies this, writer
      ensures HistoryInSync() && (State(), signal) == Call(old(State()), world, spec)
    {
      Emit(StepStarted(spec.name));
      var adapter := Resolve(world.overrides, spec.name);
      calls := calls + [(spec.name, adapter)];
      Tick();
      match world.results(adapter) {
        case Escapes =>
          signal := Escaped;
        case Raised =>
          signal := CrashStep(spec, None);
        case Returned(report, extra, accepted) =>
          if !accepted {
            signal := CrashStep(spec, extra);
          } else {
            AddStep(spec.name, report);
            Emit(StepCompleted(spec.name));
            UpdateStep(spec.name, SuccessStatus);
            PublishExtra(spec, extra);
            signal := Continue;
          }
      }
    }

    method RunStep(i: nat) returns (signal: Signal)
      requires HistoryInSync() && i < |world.specs|
      modifies this, writer
      ensures HistoryInSync() && (State(), signal) == Step(old(State()), world, i)
    {
      Tick();
      if shutdownRequested {
        return Interrupted;
      }
      var interrupted := Checkpoint(i);
      if interrupted {
        return Interrupted;
      }
      Tick();
      var spec := world.specs[i];
      if spec.skips && (verified.None? || verified.value == []) {
        EmitSkippedStep(spec.name);
      } else {
        signal := CallStep(spec);
        if signal != Continue {
          return;
        }
      }
      signal := BetweenSteps(spec.name);
    }

    method BetweenSteps(name: Name) returns (signal: Signal)
      ensures signal == Between(State(), world, name)
      // What a crashed trailers step files does not trip its gate.
      ensures name == Trailers && Trailers in steps && steps[Trailers] == ERROR_REPORT ==> signal == Continue
    {
      signal := Continue;
      match name {
        case Sort => if world.gateRaises { signal := Failed; }
        case Scrape => if world.revertRaises { signal := Failed; }
        case Trailers =>
          if Trailers in steps && steps[Trailers].status == Some("error") && !world.continueOnTrailerError {
            signal := Failed;
          }
        case _ =>
      }
    }

    /** A whole run.  The events, the report, the extras and the calls are a function of the world
        alone: no failing history write changes them.  The stored row is the recorded steps whose
        write succeeded, and the outcome of the run. */
    method Run() returns (signal: Signal)
      requires State() == FRESH
      requires writer != null ==> writer.row == None && writer.writes == 0
      modifies this, writer
      ensures (State(), signal) == PipelineRun.Run(world)
      ensures writer != null && writer.store.insertOk ==>
                writer.row == Some(Row(Persisted(recorded, writer.store),
                                       if writer.store.writeOk(|recorded|) then Some(OutcomeOf(signal)) else None))
      ensures writer != null && !writer.store.insertOk ==> writer.row == None
    {
      Emit(PipelineStarted);
      if writer != null {
        writer.Insert();
      }
      ghost var start := State();
      signal := Continue;
      var i := 0;
      while i < |world.specs| && signal == Continue
        invariant 0 <= i <= |world.specs| && HistoryInSync()
        invariant signal == Continue ==> RunFrom(State(), world, i) == RunFrom(start, world, 0)
        invariant signal != Continue ==> (State(), signal) == RunFrom(start, world, 0)
        decreases |world.specs| - i, signal == Continue
      {
        signal := RunStep(i);
        if signal == Continue {
          i := i + 1;
        }
      }
      Emit(PipelineEnded);
      if writer != null {
        writer.Finalize(OutcomeOf(signal));
      }
    }
  }

  /** Overrides replace entries of the step registry one by one. */
  method ApplyStepOverrides(names: seq<Name>, overrides: map<Name, nat>) returns (registry: map<Name, Adapter>)
    ensures forall n :: n in registry <==> n in names || n in overrides
    ensures forall n :: n in registry ==> registry[n] == Resolve(overrides, n)
  {
    registry := map n | n in names :: BuiltIn(n);
    var left := overrides.Keys;
    while left != {}
      invariant left <= overrides.Keys
      invariant forall n :: n in registry <==> n in names || (n in overrides && n !in left)
      invariant forall n :: n in registry ==> registry[n] == if n in left then BuiltIn(n) else Resolve(overrides, n)
      decreases |left|
    {
      var n :| n in left;
      registry := registry[n := Override(n, overrides[n])];
      left := left - {n};
    }
  }
}
