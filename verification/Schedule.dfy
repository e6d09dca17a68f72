/** The self-managed cron loop, run against an arbitrary clock. */
module Schedule {
  import opened Options
  import opened Calendar
  import opened Cron

  /** A clock reading: its minute, and the microseconds past it. */
  datatype Instant = Instant(minute: Stamp, micros: nat)

  const MAX_SLEEP_MICROS: int := 60_000_000

  /** Everything outside the loop.  `clock(k)` is the k-th reading (it may jump backward or forward);
      `stop()` answers false `pollsLeft` more times and true ever after, as a set event does.
      A loop that is never stopped is covered by its finite prefixes. */
  class World {
    const clock: nat -> Instant
    var taken: nat
    var pollsLeft: nat

    ghost predicate Valid() {
      forall k: nat :: Calendar.Valid(clock(k).minute)
    }

    constructor (clock: nat -> Instant, polls: nat)
      requires forall k: nat :: Calendar.Valid(clock(k).minute)
      ensures Valid() && this.clock == clock && taken == 0 && pollsLeft == polls
    {
      this.clock, this.taken, this.pollsLeft := clock, 0, polls;
    }

    method Stop() returns (stopped: bool)
      modifies this`pollsLeft
      ensures stopped <==> old(pollsLeft) == 0
      ensures pollsLeft == if stopped then 0 else old(pollsLeft) - 1
    {
      stopped := pollsLeft == 0;
      if !stopped {
        pollsLeft := pollsLeft - 1;
      }
    }

    method Clock() returns (now: Instant)
      modifies this`taken
      ensures now == clock(old(taken)) && taken == old(taken) + 1
    {
      now := clock(taken);
      taken := taken + 1;
    }
  }

  /** One job run: the boundary it is for, and the clock readings that let it start and that
      followed its end. */
  datatype JobRun = JobRun(fire: Stamp, startRead: nat, endRead: nat)

  datatype Outcome = Stopped | NeverMatches

  function Later(fire: Stamp, now: Instant): Instant {
    if Before(now.minute, fire) then Instant(fire, 0) else now
  }

  /** `(fire - now).total_seconds()`, in microseconds; negative when `now` is past `fire`. */
  function MicrosUntil(fire: Stamp, now: Instant): int
    requires Valid(fire) && Valid(now.minute)
  {
    (MinuteIndex(fire) - MinuteIndex(now.minute)) * 60_000_000 - now.micros
  }

  /** Where the search for the next boundary starts after `runs`. */
  function SearchFrom(start: Instant, clock: nat -> Instant, runs: seq<JobRun>): Instant {
    if runs == [] then start
    else Later(runs[|runs| - 1].fire, clock(runs[|runs| - 1].endRead))
  }

  ghost predicate ValidClock(clock: nat -> Instant) {
    forall k: nat :: Valid(clock(k).minute)
  }

  /** Run `i` is for the first boundary after what came before, starts only once a clock reading has
      reached that boundary, and ends before the next one starts. */
  ghost predicate RunIsDue(e: Expression, start: Instant, clock: nat -> Instant, runs: seq<JobRun>, i: nat)
    requires i < |runs| && Valid(start.minute) && ValidClock(clock)
    requires i > 0 ==> Valid(runs[i - 1].fire)
  {
    && IsNextFire(e, SearchFrom(start, clock, runs[..i]).minute, runs[i].fire)
    && !Before(clock(runs[i].startRead).minute, runs[i].fire)
    && runs[i].startRead < runs[i].endRead
    && (i > 0 ==> runs[i - 1].endRead < runs[i].startRead)
  }

  ghost predicate History(e: Expression, start: Instant, clock: nat -> Instant, runs: seq<JobRun>) {
    && Valid(start.minute) && ValidClock(clock)
    && (forall i :: 0 <= i < |runs| ==> Valid(runs[i].fire))
    && (forall i :: 0 <= i < |runs| ==> RunIsDue(e, start, clock, runs, i))
  }

  lemma SearchIsValid(e: Expression, start: Instant, clock: nat -> Instant, runs: seq<JobRun>)
    requires History(e, start, clock, runs)
    ensures Valid(SearchFrom(start, clock, runs).minute)
  {
  }

  lemma HistoryExtends(e: Expression, start: Instant, clock: nat -> Instant, runs: seq<JobRun>, r: JobRun)
    requires History(e, start, clock, runs)
    requires IsNextFire(e, SearchFrom(start, clock, runs).minute, r.fire)
    requires !Before(clock(r.startRead).minute, r.fire) && r.startRead < r.endRead
    requires runs != [] ==> runs[|runs| - 1].endRead < r.startRead
    ensures History(e, start, clock, runs + [r])
    ensures SearchFrom(start, clock, runs + [r]) == Later(r.fire, clock(r.endRead))
  {
    var longer := runs + [r];
    forall i | 0 <= i < |longer|
      ensures RunIsDue(e, start, clock, longer, i)
    {
      if i < |runs| {
        assert RunIsDue(e, start, clock, runs, i);
        assert longer[..i] == runs[..i];
      } else {
        assert longer[..i] == runs;
      }
    }
  }

  /** One sleep: the boundary waited for, the clock reading found before it, and the length asked for. */
  datatype Nap = Nap(fire: Stamp, read: nat, micros: int)

  /** Every sleep is justified by a reading before the boundary; its length is what the next reading
      leaves until then, at most 60 seconds (and below zero when that reading is already past). */
  ghost predicate NapIsJustified(clock: nat -> Instant, nap: Nap)
    requires ValidClock(clock)
  {
    && Valid(nap.fire)
    && Before(clock(nap.read).minute, nap.fire)
    && nap.micros <= 60_000_000
    && nap.micros <= MicrosUntil(nap.fire, clock(nap.read + 1))
    && (nap.micros == 60_000_000 || nap.micros == MicrosUntil(nap.fire, clock(nap.read + 1)))
  }

  /** The boundary a sleep waits for is the first one after some number of the runs. */
  ghost predicate NapIsForABoundary(e: Expression, start: Instant, clock: nat -> Instant, runs: seq<JobRun>, nap: Nap)
    requires History(e, start, clock, runs)
  {
    exists n :: 0 <= n <= |runs| && Awaited(e, start, clock, runs[..n], nap.fire)
  }

  ghost predicate Awaited(e: Expression, start: Instant, clock: nat -> Instant, runs: seq<JobRun>, fire: Stamp)
    requires Valid(start.minute) && ValidClock(clock) && forall i :: 0 <= i < |runs| ==> Valid(runs[i].fire)
  {
    IsNextFire(e, SearchFrom(start, clock, runs).minute, fire)
  }

  ghost predicate NapsAreDue(e: Expression, start: Instant, clock: nat -> Instant, runs: seq<JobRun>, naps: seq<Nap>)
    requires History(e, start, clock, runs)
  {
    naps == []
    || (var nap := naps[|naps| - 1];
        && NapIsJustified(clock, nap)
        && NapIsForABoundary(e, start, clock, runs, nap)
        && NapsAreDue(e, start, clock, runs, naps[..|naps| - 1]))
  }

  lemma {:induction false} NapsStayDue(
      e: Expression, start: Instant, clock: nat -> Instant, runs: seq<JobRun>, naps: seq<Nap>, r: JobRun)
    requires History(e, start, clock, runs) && History(e, start, clock, runs + [r])
    requires NapsAreDue(e, start, clock, runs, naps)
    ensures NapsAreDue(e, start, clock, runs + [r], naps)
  {
    if naps != [] {
      var nap := naps[|naps| - 1];
      var n :| 0 <= n <= |runs| && Awaited(e, start, clock, runs[..n], nap.fire);
      assert (runs + [r])[..n] == runs[..n];
      NapsStayDue(e, start, clock, runs, naps[..|naps| - 1], r);
    }
  }

  lemma {:induction false} NapsBecomeDue(
      e: Expression, start: Instant, clock: nat -> Instant, runs: seq<JobRun>, naps: seq<Nap>,
      fire: Stamp, slept: seq<Nap>)
    requires History(e, start, clock, runs) && NapsAreDue(e, start, clock, runs, naps)
    requires Awaited(e, start, clock, runs, fire)
    requires forall n :: n in slept ==> n.fire == fire && NapIsJustified(clock, n)
    ensures NapsAreDue(e, start, clock, runs, naps + slept)
  {
    if slept == [] {
      assert naps + slept == naps;
    } else {
      var nap := slept[|slept| - 1];
      NapsBecomeDue(e, start, clock, runs, naps, fire, slept[..|slept| - 1]);
      assert (naps + slept)[..|naps + slept| - 1] == naps + slept[..|slept| - 1];
      assert runs[..|runs|] == runs;
      assert Awaited(e, start, clock, runs[..|runs|], nap.fire);
    }
  }

  /** Sleeps until a clock reading reaches `fire` or a stop is seen, re-reading the clock after
      every sleep; `seen` is the last reading it compared.  Each sleep costs one poll that answered
      false; `arrived` says whether it returned on such a reading, which costs one more. */
  method AwaitBoundary(fire: Stamp, w: World) returns (seen: nat, naps: seq<Nap>, arrived: bool)
    requires w.Valid() && Valid(fire)
    modifies w
    ensures arrived ==> old(w.taken) <= seen < w.taken && !Before(w.clock(seen).minute, fire)
    ensures !arrived ==> w.pollsLeft == 0
    ensures w.taken >= old(w.taken)
    ensures old(w.pollsLeft) == w.pollsLeft + |naps| + if arrived then 1 else 0
    ensures forall n :: n in naps ==> n.fire == fire && NapIsJustified(w.clock, n)
  {
    seen, naps := w.taken, [];
    var stopped := w.Stop();
    while !stopped
      invariant stopped ==> w.pollsLeft == 0
      invariant w.taken >= old(w.taken)
      invariant old(w.pollsLeft) == w.pollsLeft + |naps| + if stopped then 0 else 1
      invariant forall n :: n in naps ==> n.fire == fire && NapIsJustified(w.clock, n)
      decreases w.pollsLeft, !stopped
    {
      seen := w.taken;
      var now := w.Clock();
      if !Before(now.minute, fire) {
        return seen, naps, true;
      }
      var again := w.Clock();
      var left := MicrosUntil(fire, again);
      naps := naps + [Nap(fire, seen, if left < MAX_SLEEP_MICROS then left else MAX_SLEEP_MICROS)];
      stopped := w.Stop();
    }
    arrived := false;
  }

  /** One round: wait for the boundary, then run the job to its end unless a stop is seen first.
      The reading that follows the end is the last one taken. */
  method WaitAndRun(fire: Stamp, w: World) returns (run: Option<JobRun>, naps: seq<Nap>, after: Instant)
    requires w.Valid() && Valid(fire)
    modifies w
    ensures w.taken >= old(w.taken)
    ensures run.Some? ==> run.value.fire == fire && !Before(w.clock(run.value.startRead).minute, fire)
    ensures run.Some? ==> old(w.taken) <= run.value.startRead < run.value.endRead == w.taken - 1
    ensures run.Some? ==> after == Later(fire, w.clock(run.value.endRead))
    ensures run.Some? ==> old(w.pollsLeft) == w.pollsLeft + |naps| + 2
    ensures run.None? ==> w.pollsLeft == 0 && |naps| <= old(w.pollsLeft) <= |naps| + 1
    ensures forall n :: n in naps ==> n.fire == fire && NapIsJustified(w.clock, n)
  {
    var seen, slept, arrived := AwaitBoundary(fire, w);
    var stopped := w.Stop();
    if stopped {
      return None, slept, Instant(fire, 0);
    }
    // The job runs to its end here.
    var ended := w.taken;
    var now := w.Clock();
    return Some(JobRun(fire, seen, ended)), slept, Later(fire, now);
  }

  /** The loop: wait for the boundary, run the job to its end, look for the next boundary. */
  method RunSchedule(e: Expression, w: World) returns (runs: seq<JobRun>, naps: seq<Nap>, outcome: Outcome)
    requires w.Valid()
    modifies w
    ensures History(e, w.clock(old(w.taken)), w.clock, runs)
    ensures NapsAreDue(e, w.clock(old(w.taken)), w.clock, runs, naps)
    ensures outcome == NeverMatches ==> !FiresInWindow(e, SearchFrom(w.clock(old(w.taken)), w.clock, runs).minute)
    // It stops only when told to, and every poll answered false before that is spent on a run
    // (three each), on a sleep (one each), or on the iteration the stop interrupts.
    ensures outcome == Stopped ==> w.pollsLeft == 0
    ensures outcome == Stopped ==> 3 * |runs| + |naps| <= old(w.pollsLeft) <= 3 * |runs| + |naps| + 2
    // A bad expression fails before anything else happens.
    ensures !FiresInWindow(e, w.clock(old(w.taken)).minute) ==>
              outcome == NeverMatches && runs == [] && naps == [] && w.pollsLeft == old(w.pollsLeft)
  {
    runs, naps := [], [];
    ghost var start := w.clock(w.taken);
    var after := w.Clock();
    var probe := NextFire(e, after.minute);
    if probe.None? {
      return runs, naps, NeverMatches;
    }
    var stopped := w.Stop();
    while !stopped
      invariant History(e, start, w.clock, runs) && NapsAreDue(e, start, w.clock, runs, naps)
      invariant after == SearchFrom(start, w.clock, runs)
      invariant runs != [] ==> runs[|runs| - 1].endRead < w.taken
      invariant stopped ==> w.pollsLeft == 0
      invariant old(w.pollsLeft) == w.pollsLeft + 3 * |runs| + |naps| + if stopped then 0 else 1
      decreases w.pollsLeft, !stopped
    {
      SearchIsValid(e, start, w.clock, runs);
      var fire := NextFire(e, after.minute);
      if fire.None? {
        return runs, naps, NeverMatches;
      }
      var run, slept, next := WaitAndRun(fire.value, w);
      NapsBecomeDue(e, start, w.clock, runs, naps, fire.value, slept);
      naps := naps + slept;
      if run.None? {
        return runs, naps, Stopped;
      }
      HistoryExtends(e, start, w.clock, runs, run.value);
      NapsStayDue(e, start, w.clock, runs, naps, run.value);
      runs := runs + [run.value];
      after := next;
      stopped := w.Stop();
    }
    outcome := Stopped;
  }

  // ---------------------------------------------------------------- what every history satisfies

  lemma SearchNeverBehind(e: Expression, start: Instant, clock: nat -> Instant, runs: seq<JobRun>, i: nat)
    requires History(e, start, clock, runs) && i < |runs|
    ensures Valid(SearchFrom(start, clock, runs[..i]).minute)
    ensures i > 0 ==> !Before(SearchFrom(start, clock, runs[..i]).minute, runs[i - 1].fire)
    ensures IsNextFire(e, SearchFrom(start, clock, runs[..i]).minute, runs[i].fire)
  {
    assert RunIsDue(e, start, clock, runs, i);
    if i > 0 {
      assert runs[..i][i - 1] == runs[i - 1];
    }
  }

  lemma NotBeforeThenBefore(a: Stamp, b: Stamp, c: Stamp)
    requires Valid(a) && Valid(b) && Valid(c) && !Before(b, a) && Before(b, c)
    ensures Before(a, c)
  {
    IndexIsOrder(b, a);
    IndexIsOrder(b, c);
    IndexIsOrder(a, c);
  }

  /** Boundaries fire in strictly increasing order, so none fires twice; whatever the clock does. */
  lemma {:induction false} FiresIncrease(
      e: Expression, start: Instant, clock: nat -> Instant, runs: seq<JobRun>, i: nat, j: nat)
    requires History(e, start, clock, runs) && i < j < |runs|
    ensures Before(runs[i].fire, runs[j].fire)
    decreases j
  {
    SearchNeverBehind(e, start, clock, runs, j);
    var from := SearchFrom(start, clock, runs[..j]).minute;
    NotBeforeThenBefore(runs[j - 1].fire, from, runs[j].fire);
    if i < j - 1 {
      FiresIncrease(e, start, clock, runs, i, j - 1);
      NotBeforeThenBefore(runs[i].fire, runs[j - 1].fire, runs[j].fire);
    }
  }

  /** Jobs never overlap: with a clock that does not go back, a job starts no earlier than the end
      of every job before it. */
  lemma {:induction false} JobsDoNotOverlap(
      e: Expression, start: Instant, clock: nat -> Instant, runs: seq<JobRun>, i: nat, j: nat)
    requires History(e, start, clock, runs) && i < j < |runs|
    requires forall k: nat, l: nat :: k <= l ==> !Before(clock(l).minute, clock(k).minute)
    ensures runs[i].endRead < runs[j].startRead
    ensures !Before(clock(runs[j].startRead).minute, clock(runs[i].endRead).minute)
    decreases j
  {
    assert RunIsDue(e, start, clock, runs, j) && RunIsDue(e, start, clock, runs, j - 1);
    if i < j - 1 {
      JobsDoNotOverlap(e, start, clock, runs, i, j - 1);
    }
  }

  /** `u` was run, or fell while the job of an earlier boundary was still going. */
  ghost predicate Accounted(clock: nat -> Instant, runs: seq<JobRun>, u: Stamp) {
    exists i :: 0 <= i < |runs|
                && (u == runs[i].fire || (Before(runs[i].fire, u) && !Before(clock(runs[i].endRead).minute, u)))
  }

  /** No boundary is lost: every matching minute between the start and the last fire either fired or
      lies in `(fire, end of run]` of some run. */
  lemma {:induction false} NoBoundaryLost(
      e: Expression, start: Instant, clock: nat -> Instant, runs: seq<JobRun>, n: nat, u: Stamp)
    requires History(e, start, clock, runs) && 0 < n <= |runs|
    requires Valid(u) && Matches(e, u) && Before(start.minute, u) && !Before(runs[n - 1].fire, u)
    ensures Accounted(clock, runs, u)
    decreases n
  {
    var last := runs[n - 1].fire;
    SearchNeverBehind(e, start, clock, runs, n - 1);
    var from := SearchFrom(start, clock, runs[..n - 1]).minute;
    if Before(from, u) {
      IndexIsOrder(u, last);
      IndexIsOrder(last, u);
      assert u == last;
    } else {
      var previous := runs[n - 2];
      assert runs[..n - 1][n - 2] == previous;
      if Before(previous.fire, u) {
        IndexIsOrder(previous.fire, u);
        assert !Before(clock(previous.endRead).minute, u);
      } else {
        NoBoundaryLost(e, start, clock, runs, n - 1, u);
      }
    }
  }

  /** A boundary that passed while a job ran never starts a run: each run is for a boundary after the
      reading that followed the end of the run before it. */
  lemma PassedBoundaryIsSkipped(e: Expression, start: Instant, clock: nat -> Instant, runs: seq<JobRun>, i: nat)
    requires History(e, start, clock, runs) && 0 < i < |runs|
    ensures Before(clock(runs[i - 1].endRead).minute, runs[i].fire)
  {
    SearchNeverBehind(e, start, clock, runs, i);
    assert runs[..i][i - 1] == runs[i - 1];
    var now, last := clock(runs[i - 1].endRead).minute, runs[i - 1].fire;
    if Before(now, last) {
      IndexIsOrder(now, last);
      IndexIsOrder(last, runs[i].fire);
      IndexIsOrder(now, runs[i].fire);
    }
  }

  /** What a sleep of `MicrosUntil` amounts to: none at the boundary, 60 seconds more for every minute
      before it, less the microseconds already gone; above zero exactly before the boundary. */
  lemma MicrosUntilCounts(fire: Stamp, now: Instant)
    requires Valid(fire) && Valid(now.minute) && now.micros < 60_000_000
    ensures MicrosUntil(fire, Instant(fire, 0)) == 0
    ensures MicrosUntil(fire, now) == MicrosUntil(fire, Instant(PlusMinute(now.minute), 0)) + 60_000_000 - now.micros
    ensures MicrosUntil(fire, now) > 0 <==> Before(now.minute, fire)
  {
    IndexSteps(now.minute);
    IndexIsOrder(now.minute, fire);
  }
}
