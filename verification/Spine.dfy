/** The provenance spine: its rows, and the sources both the repair and the checks read. */
module Spine {
  import opened Options
  import opened Strings

  datatype Kind = Season | Movie | Episode | OtherKind

  /** `grabbedHash` is "" when the column is NULL or empty. */
  datatype Wanted = Wanted(
    id: int, kind: Kind, season: Option<int>, done: bool, grabbedHash: string, lastSearchAt: Option<int>)

  datatype Obligation = Obligation(infoHash: string, addedAt: int)

  datatype SpineStatus = Grabbed | Dispatched | Reconciled | OtherStatus

  datatype Stage = IngestStage | ScrapeStage

  /** `estimated` names the stages filled by interpolation. */
  datatype SpineRow = SpineRow(
    infoHash: string, season: Option<int>,
    grabbedAt: Option<int>, ingestedAt: Option<int>, scrapedAt: Option<int>, dispatchedAt: Option<int>,
    status: SpineStatus, estimated: seq<Stage>,
    ingestRun: Option<string>, scrapeRun: Option<string>, dispatchRun: Option<string>)

  datatype TrackerEntry = TrackerEntry(date: Option<int>, name: Option<string>)

  datatype StepEntry = StepEntry(name: string, endedAt: Option<int>, reasons: seq<string>)

  /** A journal row; `steps` is `None` when its JSON is not a readable list. */
  datatype PipelineRow = PipelineRow(runUid: string, steps: Option<seq<StepEntry>>)

  /** `runs` is ordered by start; `tracker` is keyed by lower-cased hash; `landed` is what the library
      can prove of a wanted row: the instant its files were last verified. */
  datatype Sources = Sources(
    wanted: seq<Wanted>, obligations: seq<Obligation>, tracker: map<string, TrackerEntry>,
    runs: seq<PipelineRow>, landed: Wanted -> Option<int>)

  // ---------------------------------------------------------------- hashes

  function LowerChar(c: char): char {
    if 'A' <= c <= 'Z' then (c as int + 32) as char else c
  }

  function Lower(text: string): (r: string)
    ensures |r| == |text|
  {
    if text == "" then "" else [LowerChar(text[0])] + Lower(text[1..])
  }

  lemma {:induction false} LowerTwice(text: string)
    ensures Lower(Lower(text)) == Lower(text)
  {
    if text != "" {
      LowerTwice(text[1..]);
      assert Lower(text)[1..] == Lower(text[1..]);
    }
  }

  /** The lower-cased hashes present in the spine. */
  function Hashes(spine: seq<SpineRow>): set<string> {
    set i | 0 <= i < |spine| :: Lower(spine[i].infoHash)
  }

  /** The first obligation's instant: the least over those of the hash. */
  function GrabInstant(obligations: seq<Obligation>, h: string): Option<int> {
    if obligations == [] then None
    else
      var n := |obligations| - 1;
      var rest := GrabInstant(obligations[..n], h);
      var last := obligations[n];
      if Lower(last.infoHash) != h then rest
      else if rest.Some? && rest.value <= last.addedAt then rest
      else Some(last.addedAt)
  }

  // ---------------------------------------------------------------- the run journal

  /** Per-step end instants; a later entry of the same name wins. */
  function StagesOf(steps: seq<StepEntry>): map<string, int> {
    if steps == [] then map[]
    else
      var last := steps[|steps| - 1];
      var stages := StagesOf(steps[..|steps| - 1]);
      if last.endedAt.Some? then stages[last.name := last.endedAt.value] else stages
  }

  /** The reasons of the last ingest entry. */
  function ReasonsOf(steps: seq<StepEntry>): seq<string> {
    if steps == [] then []
    else if steps[|steps| - 1].name == "ingest" then steps[|steps| - 1].reasons
    else ReasonsOf(steps[..|steps| - 1])
  }

  const ARROW: string := " \U{2192} "

  function BeforeArrow(reason: string): string {
    if reason == "" then ""
    else if ARROW <= reason then ""
    else [reason[0]] + BeforeArrow(reason[1..])
  }

  /** `reason.split(" → ")[0].split(":")[0].strip()` */
  function ReleaseName(reason: string): string {
    Strip(Partition(BeforeArrow(reason), ':').0)
  }

  /** One of the first `n` reasons names `name`. */
  predicate NamedBefore(reasons: seq<string>, n: nat, name: string)
    requires n <= |reasons|
  {
    exists i :: 0 <= i < n && ReleaseName(reasons[i]) == name
  }

  lemma NamedOneMore(reasons: seq<string>, n: nat)
    requires n < |reasons|
    ensures forall name :: NamedBefore(reasons, n + 1, name) <==>
                             NamedBefore(reasons, n, name) || ReleaseName(reasons[n]) == name
  {
    forall name
      ensures NamedBefore(reasons, n + 1, name) <==>
              NamedBefore(reasons, n, name) || ReleaseName(reasons[n]) == name
    {
      if NamedBefore(reasons, n + 1, name) {
        var i :| 0 <= i < n + 1 && ReleaseName(reasons[i]) == name;
        assert i < n ==> NamedBefore(reasons, n, name);
      }
    }
  }

  predicate Lists(run: PipelineRow, name: string) {
    && run.steps.Some? && name != ""
    && NamedBefore(ReasonsOf(run.steps.value), |ReasonsOf(run.steps.value)|, name)
  }

  datatype Carrier = Carrier(runUid: string, stages: map<string, int>)

  /** The oldest run whose ingest lines name `name`. */
  function FirstCarrier(runs: seq<PipelineRow>, name: string): Option<Carrier> {
    if runs == [] then None
    else
      var n := |runs| - 1;
      var earlier := FirstCarrier(runs[..n], name);
      if earlier.Some? then earlier
      else if Lists(runs[n], name) then Some(Carrier(runs[n].runUid, StagesOf(runs[n].steps.value)))
      else None
  }

  // ---------------------------------------------------------------- interpolation

  /** `a` is not after `b`, when both are known. */
  predicate NotAfter(a: Option<int>, b: Option<int>) {
    a.Some? && b.Some? ==> a.value <= b.value
  }

  /** The known instants are in the workflow's order. */
  predicate InOrder(grabbed: Option<int>, ingested: Option<int>, scraped: Option<int>, dispatched: Option<int>) {
    && NotAfter(grabbed, ingested) && NotAfter(grabbed, scraped) && NotAfter(grabbed, dispatched)
    && NotAfter(ingested, scraped) && NotAfter(ingested, dispatched) && NotAfter(scraped, dispatched)
  }

  function Min(a: int, b: int): int { if a <= b then a else b }

  function Max(a: int, b: int): int { if a <= b then b else a }

  /** Fills the missing instants of a landed journey and names what it filled. */
  function InterpolateStages(grabbed: Option<int>, ingested: Option<int>, scraped: Option<int>, dispatched: Option<int>)
    : (Option<int>, Option<int>, seq<Stage>)
  {
    if grabbed.None? || dispatched.None? || dispatched.value < grabbed.value then (ingested, scraped, [])
    else
      var g, d := grabbed.value, dispatched.value;
      var span := d - g;
      var upper := if scraped.Some? then scraped.value else d;
      var ingestedAt := if ingested.Some? then ingested.value else Min(Max(g + span / 3, g), Max(upper, g));
      var lower := ingestedAt;
      var scrapedAt := if scraped.Some? then scraped.value else Min(Max(g + (2 * span) / 3, lower), Max(d, lower));
      (Some(ingestedAt), Some(scrapedAt),
       (if ingested.None? then [IngestStage] else []) + (if scraped.None? then [ScrapeStage] else []))
  }

  /** Observed instants are kept, the estimates are named, and filling neither hides nor creates a
      contradiction: the four instants are in order iff the observed ones were. */
  lemma InterpolationIsHonest(
      grabbed: Option<int>, ingested: Option<int>, scraped: Option<int>, dispatched: Option<int>)
    ensures var (i, s, estimated) := InterpolateStages(grabbed, ingested, scraped, dispatched);
            && (ingested.Some? ==> i == ingested) && (scraped.Some? ==> s == scraped)
            && (IngestStage in estimated <==> ingested.None? && i.Some?)
            && (ScrapeStage in estimated <==> scraped.None? && s.Some?)
            && (InOrder(grabbed, i, s, dispatched) <==> InOrder(grabbed, ingested, scraped, dispatched))
  {
  }

  /** With both bounds known and nothing observed between them, the order is strict iff the span
      leaves room for it. */
  lemma StrictIffRoom(grabbed: int, dispatched: int)
    requires grabbed <= dispatched
    ensures var (i, s, _) := InterpolateStages(Some(grabbed), None, None, Some(dispatched));
            && i.Some? && s.Some?
            && (grabbed < i.value < s.value < dispatched <==> dispatched - grabbed >= 3)
            && grabbed <= i.value <= s.value <= dispatched
  {
  }

  /** A second application changes nothing and estimates nothing. */
  lemma InterpolationIsStable(
      grabbed: Option<int>, ingested: Option<int>, scraped: Option<int>, dispatched: Option<int>)
    ensures var (i, s, _) := InterpolateStages(grabbed, ingested, scraped, dispatched);
            InterpolateStages(grabbed, i, s, dispatched) == (i, s, [])
  {
    var none: seq<Stage> := [];
    assert none + none == none;
  }

  // ---------------------------------------------------------------- what the readers mean

  /** The same letter, or the two cases of one. */
  predicate SameLetter(c: char, d: char) {
    || c == d
    || ('A' <= c <= 'Z' && 'a' <= d <= 'z' && c - 'A' == d - 'a')
    || ('a' <= c <= 'z' && 'A' <= d <= 'Z' && c - 'a' == d - 'A')
  }

  lemma LowerCharIgnoresCase(c: char, d: char)
    ensures LowerChar(c) == LowerChar(d) <==> SameLetter(c, d)
  {
  }

  /** Two hashes are one exactly when they differ in the case of letters at most. */
  lemma {:induction false} LowerIgnoresCase(a: string, b: string)
    ensures Lower(a) == Lower(b) <==> |a| == |b| && forall i :: 0 <= i < |a| ==> SameLetter(a[i], b[i])
    decreases |a|
  {
    if a != "" && b != "" {
      LowerCharIgnoresCase(a[0], b[0]);
      LowerIgnoresCase(a[1..], b[1..]);
      var x, y := Lower(a), Lower(b);
      assert x == [LowerChar(a[0])] + Lower(a[1..]) && y == [LowerChar(b[0])] + Lower(b[1..]);
      assert x == y <==> x[0] == y[0] && x[1..] == y[1..];
      assert forall i :: 0 < i < |a| ==> a[i] == a[1..][i - 1];
      assert forall i :: 0 < i < |b| ==> b[i] == b[1..][i - 1];
      if |a| == |b| && forall i :: 0 <= i < |a| ==> SameLetter(a[i], b[i]) {
        forall i | 0 <= i < |a[1..]|
          ensures SameLetter(a[1..][i], b[1..][i])
        {
          assert SameLetter(a[i + 1], b[i + 1]);
        }
      }
    }
  }

  /** The grab instant of a hash is the least instant of its obligations. */
  lemma {:induction false} GrabInstantIsLeast(obligations: seq<Obligation>, h: string)
    ensures GrabInstant(obligations, h).None? <==>
            forall i :: 0 <= i < |obligations| ==> Lower(obligations[i].infoHash) != h
    ensures GrabInstant(obligations, h).Some? ==>
              var least := GrabInstant(obligations, h).value;
              && (exists i :: 0 <= i < |obligations| && Lower(obligations[i].infoHash) == h
                              && obligations[i].addedAt == least)
              && forall i :: 0 <= i < |obligations| && Lower(obligations[i].infoHash) == h ==>
                               least <= obligations[i].addedAt
    decreases |obligations|
  {
    if obligations != [] {
      var n := |obligations| - 1;
      GrabInstantIsLeast(obligations[..n], h);
      assert forall i :: 0 <= i < n ==> obligations[..n][i] == obligations[i];
    }
  }

  /** A stage's instant is the end of the last entry of that name that has one. */
  lemma {:induction false} LastEndWins(steps: seq<StepEntry>, k: nat)
    requires k < |steps| && steps[k].endedAt.Some?
    requires forall j :: k < j < |steps| && steps[j].name == steps[k].name ==> steps[j].endedAt.None?
    ensures steps[k].name in StagesOf(steps) && StagesOf(steps)[steps[k].name] == steps[k].endedAt.value
    decreases |steps|
  {
    if k < |steps| - 1 {
      LastEndWins(steps[..|steps| - 1], k);
    }
  }

  /** A stage nobody ended has no instant. */
  lemma {:induction false} NoEndNoStage(steps: seq<StepEntry>, name: string)
    requires forall j :: 0 <= j < |steps| && steps[j].name == name ==> steps[j].endedAt.None?
    ensures name !in StagesOf(steps)
    decreases |steps|
  {
    if steps != [] {
      NoEndNoStage(steps[..|steps| - 1], name);
    }
  }

  /** With nothing observed, ingest and scrape are placed at one and two thirds of the way. */
  lemma ThirdsWhenNothingObserved(g: int, d: int)
    requires g <= d
    ensures var (i, s, estimated) := InterpolateStages(Some(g), None, None, Some(d));
            && i.Some? && s.Some? && estimated == [IngestStage, ScrapeStage]
            && 3 * (i.value - g) <= d - g < 3 * (i.value - g) + 3
            && 3 * (s.value - g) <= 2 * (d - g) < 3 * (s.value - g) + 3
  {
  }

  /** The reasons are those of the last ingest entry. */
  lemma {:induction false} LastIngestWins(steps: seq<StepEntry>, k: nat)
    requires k < |steps| && steps[k].name == "ingest"
    requires forall j :: k < j < |steps| ==> steps[j].name != "ingest"
    ensures ReasonsOf(steps) == steps[k].reasons
    decreases |steps|
  {
    if k < |steps| - 1 {
      LastIngestWins(steps[..|steps| - 1], k);
    }
  }
}
