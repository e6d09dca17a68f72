/** The tool that rebuilds missing provenance journeys. */
module SpineRepair {
  import opened Options
  import opened Spine

  /** Which wanted row describes a hash shared by several: the pack before its episodes. */
  function Priority(kind: Kind): nat {
    match kind
    case Season => 0
    case Movie => 1
    case Episode => 2
    case OtherKind => 9
  }

  predicate Orphan(w: Wanted, existing: set<string>) {
    w.grabbedHash != "" && Lower(w.grabbedHash) !in existing
  }

  predicate Carries(w: Wanted, h: string) {
    w.grabbedHash != "" && Lower(w.grabbedHash) == h
  }

  /** `i` is the row of least (priority, position) among those carrying `h`. */
  ghost predicate Represents(wanted: seq<Wanted>, i: int, h: string) {
    && 0 <= i < |wanted| && Carries(wanted[i], h)
    && forall j :: 0 <= j < |wanted| && Carries(wanted[j], h) && j != i ==>
         Priority(wanted[i].kind) < Priority(wanted[j].kind)
         || (Priority(wanted[i].kind) == Priority(wanted[j].kind) && i < j)
  }

  ghost predicate DescribedBy(wanted: seq<Wanted>, n: nat, h: string, w: Wanted)
    requires n <= |wanted|
  {
    exists i :: Represents(wanted[..n], i, h) && wanted[i] == w
  }

  ghost predicate OrderOf(order: seq<string>, keys: set<string>) {
    (forall h :: h in keys <==> h in order) && (forall i, j :: 0 <= i < j < |order| ==> order[i] != order[j])
  }

  ghost predicate Provided(wanted: seq<Wanted>, n: nat, existing: set<string>, keys: set<string>)
    requires n <= |wanted|
  {
    && (forall i :: 0 <= i < n && Orphan(wanted[i], existing) ==> Lower(wanted[i].grabbedHash) in keys)
    && (forall h :: h in keys ==> h !in existing && Lower(h) == h)
  }

  /** One journey per orphaned hash, in first-seen order, each described by its representative row. */
  ghost predicate GroupedUpTo(
      wanted: seq<Wanted>, n: nat, existing: set<string>, byHash: map<string, Wanted>, order: seq<string>)
    requires n <= |wanted|
  {
    && OrderOf(order, byHash.Keys) && Provided(wanted, n, existing, byHash.Keys)
    && (forall h :: h in byHash ==> DescribedBy(wanted, n, h, byHash[h]))
  }

  lemma RepresentsMore(wanted: seq<Wanted>, n: nat, i: int, h: string)
    requires n < |wanted| && Represents(wanted[..n], i, h)
    ensures Carries(wanted[n], h) && Priority(wanted[n].kind) < Priority(wanted[i].kind)
            ==> Represents(wanted[..n + 1], n, h)
    ensures !(Carries(wanted[n], h) && Priority(wanted[n].kind) < Priority(wanted[i].kind))
            ==> Represents(wanted[..n + 1], i, h)
  {
    var longer, shorter := wanted[..n + 1], wanted[..n];
    assert forall j :: 0 <= j < n ==> longer[j] == shorter[j] == wanted[j];
    assert longer[n] == wanted[n];
  }

  lemma RepresentsFirst(wanted: seq<Wanted>, n: nat, h: string)
    requires n < |wanted| && Carries(wanted[n], h) && forall j :: 0 <= j < n ==> !Carries(wanted[j], h)
    ensures Represents(wanted[..n + 1], n, h)
  {
    var longer := wanted[..n + 1];
    assert forall j :: 0 <= j < n ==> longer[j] == wanted[j];
  }

  /** The dictionary after one more orphan. */
  function Grouped(byHash: map<string, Wanted>, h: string, w: Wanted): map<string, Wanted> {
    if h !in byHash || Priority(w.kind) < Priority(byHash[h].kind) then byHash[h := w] else byHash
  }

  /** One turn of the grouping loop. */
  method GroupOne(w: Wanted, existing: set<string>, byHash: map<string, Wanted>, order: seq<string>)
    returns (byHash': map<string, Wanted>, order': seq<string>)
    ensures Orphan(w, existing) ==>
              var h := Lower(w.grabbedHash);
              byHash' == Grouped(byHash, h, w) && order' == if h in byHash then order else order + [h]
    ensures !Orphan(w, existing) ==> byHash' == byHash && order' == order
  {
    byHash', order' := byHash, order;
    if w.grabbedHash == "" {
      return;
    }
    var h := Lower(w.grabbedHash);
    if h in existing {
      return;
    }
    if h !in byHash {
      byHash', order' := byHash[h := w], order + [h];
    } else if Priority(w.kind) < Priority(byHash[h].kind) {
      byHash' := byHash[h := w];
    }
  }

  /** The grouping phase. */
  method GroupOrphans(wanted: seq<Wanted>, existing: set<string>)
    returns (byHash: map<string, Wanted>, order: seq<string>)
    ensures GroupedUpTo(wanted, |wanted|, existing, byHash, order)
  {
    byHash, order := map[], [];
    GroupStart(wanted, existing, byHash);
    var n := 0;
    while n < |wanted|
      invariant 0 <= n <= |wanted| && GroupedUpTo(wanted, n, existing, byHash, order)
    {
      if Orphan(wanted[n], existing) {
        GroupStep(wanted, n, existing, byHash, order);
      } else {
        GroupSkip(wanted, n, existing, byHash, order);
      }
      byHash, order := GroupOne(wanted[n], existing, byHash, order);
      n := n + 1;
    }
  }

  lemma GroupStart(wanted: seq<Wanted>, existing: set<string>, none: map<string, Wanted>)
    requires none == map[]
    ensures GroupedUpTo(wanted, 0, existing, none, [])
  {
  }

  lemma GroupSkip(wanted: seq<Wanted>, n: nat, existing: set<string>, byHash: map<string, Wanted>, order: seq<string>)
    requires n < |wanted| && GroupedUpTo(wanted, n, existing, byHash, order) && !Orphan(wanted[n], existing)
    ensures GroupedUpTo(wanted, n + 1, existing, byHash, order)
  {
    forall h | h in byHash
      ensures DescribedBy(wanted, n + 1, h, byHash[h])
    {
      var i :| Represents(wanted[..n], i, h) && wanted[i] == byHash[h];
      RepresentsMore(wanted, n, i, h);
      assert Represents(wanted[..n + 1], i, h);
    }
  }

  lemma RepresentativeStep(
      wanted: seq<Wanted>, n: nat, existing: set<string>, byHash: map<string, Wanted>, order: seq<string>, k: string)
    requires n < |wanted| && GroupedUpTo(wanted, n, existing, byHash, order) && Orphan(wanted[n], existing)
    requires k in Grouped(byHash, Lower(wanted[n].grabbedHash), wanted[n])
    ensures DescribedBy(wanted, n + 1, k, Grouped(byHash, Lower(wanted[n].grabbedHash), wanted[n])[k])
  {
    var w, h := wanted[n], Lower(wanted[n].grabbedHash);
    if k in byHash {
      assert DescribedBy(wanted, n, k, byHash[k]);
      var i :| Represents(wanted[..n], i, k) && wanted[i] == byHash[k];
      RepresentsMore(wanted, n, i, k);
      if k == h && Priority(w.kind) < Priority(byHash[h].kind) {
        assert Represents(wanted[..n + 1], n, k);
      } else {
        assert Represents(wanted[..n + 1], i, k);
      }
    } else {
      RepresentsFirst(wanted, n, k);
    }
  }

  lemma OrderStep(order: seq<string>, keys: set<string>, h: string)
    requires OrderOf(order, keys) && h !in keys
    ensures OrderOf(order + [h], keys + {h})
  {
  }

  lemma ProvidedStep(wanted: seq<Wanted>, n: nat, existing: set<string>, keys: set<string>)
    requires n < |wanted| && Provided(wanted, n, existing, keys) && Orphan(wanted[n], existing)
    ensures Provided(wanted, n + 1, existing, keys + {Lower(wanted[n].grabbedHash)})
  {
    LowerTwice(wanted[n].grabbedHash);
  }

  lemma GroupStep(wanted: seq<Wanted>, n: nat, existing: set<string>, byHash: map<string, Wanted>, order: seq<string>)
    requires n < |wanted| && GroupedUpTo(wanted, n, existing, byHash, order) && Orphan(wanted[n], existing)
    ensures var h := Lower(wanted[n].grabbedHash);
            GroupedUpTo(wanted, n + 1, existing, Grouped(byHash, h, wanted[n]),
                        if h in byHash then order else order + [h])
  {
    var h := Lower(wanted[n].grabbedHash);
    var grouped := Grouped(byHash, h, wanted[n]);
    ProvidedStep(wanted, n, existing, byHash.Keys);
    assert grouped.Keys == byHash.Keys + {h};
    if h in byHash {
      assert byHash.Keys + {h} == byHash.Keys;
    } else {
      OrderStep(order, byHash.Keys, h);
    }
    forall k | k in grouped
      ensures DescribedBy(wanted, n + 1, k, grouped[k])
    {
      RepresentativeStep(wanted, n, existing, byHash, order, k);
    }
  }

  // ---------------------------------------------------------------- rebuilding one journey

  /** The tracker's date of the ingest, else the end of the ingest step of the carrying run. */
  function ObservedIngest(src: Sources, h: string): Option<int> {
    if h in src.tracker && src.tracker[h].date.Some? then src.tracker[h].date
    else
      match Carried(src, h)
      case Some(c) => if "ingest" in c.stages then Some(c.stages["ingest"]) else None
      case None => None
  }

  function ObservedScrape(src: Sources, h: string): Option<int> {
    match Carried(src, h)
    case Some(c) => if "scrape" in c.stages then Some(c.stages["scrape"]) else None
    case None => None
  }

  /** The run that carried the torrent, through its release name. */
  function Carried(src: Sources, h: string): Option<Carrier> {
    if h in src.tracker && src.tracker[h].name.Some? then FirstCarrier(src.runs, src.tracker[h].name.value) else None
  }

  /** `grabbed_at_by_hash.get(h) or last_search_at`: an obligation dated 0 counts as none. */
  function ObservedGrab(src: Sources, w: Wanted, h: string): Option<int> {
    var o := GrabInstant(src.obligations, h);
    if o.Some? && o.value != 0 then o else w.lastSearchAt
  }

  /** Both halves proven: the queue closed the row and the library holds a live file. */
  predicate Landed(src: Sources, w: Wanted) {
    w.done && src.landed(w).Some?
  }

  function RunIf(known: bool, run: Option<string>): Option<string> {
    if known then run else None
  }

  function Rebuilt(src: Sources, w: Wanted, h: string): (row: SpineRow)
    ensures row.infoHash == h
  {
    var grabbed := ObservedGrab(src, w, h);
    var ingested, scraped := ObservedIngest(src, h), ObservedScrape(src, h);
    var run := match Carried(src, h) case Some(c) => Some(c.runUid) case None => None;
    var dispatches := Carried(src, h).Some? && "dispatch" in Carried(src, h).value.stages;
    if Landed(src, w) then
      var (i, s, estimated) := InterpolateStages(grabbed, ingested, scraped, src.landed(w));
      SpineRow(h, w.season, grabbed, i, s, src.landed(w), Dispatched, estimated,
               RunIf(i.Some?, run), RunIf(s.Some?, run), RunIf(dispatches, run))
    else
      SpineRow(h, w.season, grabbed, ingested, scraped, None, Grabbed, [],
               RunIf(ingested.Some?, run), RunIf(scraped.Some?, run), None)
  }

  predicate Names(carrier: Option<Carrier>, run: Option<string>) {
    run.Some? ==> carrier.Some? && run.value == carrier.value.runUid
  }

  /** A journey names the run that carried it for every stage with an instant, an estimated one
      included: the run has journaled the end of its scrape exactly when that instant is no estimate,
      and the end of the dispatch it is named for always. */
  lemma NamedRuns(src: Sources, w: Wanted, h: string)
    ensures var r, c := Rebuilt(src, w, h), Carried(src, h);
            && (r.ingestRun.Some? <==> c.Some? && r.ingestedAt.Some?)
            && (r.scrapeRun.Some? <==> c.Some? && r.scrapedAt.Some?)
            && (r.dispatchRun.Some? <==> c.Some? && r.dispatchedAt.Some? && "dispatch" in c.value.stages)
            && (r.scrapeRun.Some? ==> (ScrapeStage in r.estimated <==> "scrape" !in c.value.stages))
            && Names(c, r.ingestRun) && Names(c, r.scrapeRun) && Names(c, r.dispatchRun)
  {
    InterpolationIsHonest(ObservedGrab(src, w, h), ObservedIngest(src, h), ObservedScrape(src, h), src.landed(w));
  }

  /** `grabbed_at_by_hash`: the least obligation instant per hash. */
  method GrabInstants(obligations: seq<Obligation>) returns (instants: map<string, int>)
    ensures forall h :: (if h in instants then Some(instants[h]) else None) == GrabInstant(obligations, h)
  {
    instants := map[];
    var n := 0;
    while n < |obligations|
      invariant 0 <= n <= |obligations|
      invariant forall h :: (if h in instants then Some(instants[h]) else None) == GrabInstant(obligations[..n], h)
    {
      var o := obligations[n];
      var h := Lower(o.infoHash);
      assert obligations[..n + 1][..n] == obligations[..n];
      instants := instants[h := if h in instants && instants[h] <= o.addedAt then instants[h] else o.addedAt];
      n := n + 1;
    }
    assert obligations[..n] == obligations;
  }

  /** `_runs_by_release`: the oldest run that ingested each release, with its stage instants. */
  method RunsByRelease(runs: seq<PipelineRow>) returns (index: map<string, Carrier>)
    ensures forall name :: (if name in index then Some(index[name]) else None) == FirstCarrier(runs, name)
  {
    index := map[];
    var n := 0;
    while n < |runs|
      invariant 0 <= n <= |runs|
      invariant forall name :: (if name in index then Some(index[name]) else None) == FirstCarrier(runs[..n], name)
    {
      assert runs[..n + 1][..n] == runs[..n];
      if runs[n].steps.Some? {
        var stages, reasons := ReadSteps(runs[n].steps.value);
        ghost var earlier := index;
        var i := 0;
        while i < |reasons|
          invariant 0 <= i <= |reasons|
          invariant forall name :: name in earlier ==> name in index && index[name] == earlier[name]
          invariant forall name :: name !in earlier ==>
                      (name in index <==> name != "" && NamedBefore(reasons, i, name))
          invariant forall name :: name in index && name !in earlier ==> index[name] == Carrier(runs[n].runUid, stages)
        {
          NamedOneMore(reasons, i);
          var name := ReleaseName(reasons[i]);
          if name != "" && name !in index {
            index := index[name := Carrier(runs[n].runUid, stages)];
          }
          i := i + 1;
        }
      }
      n := n + 1;
    }
    assert runs[..n] == runs;
  }

  /** The loop over one run's steps. */
  method ReadSteps(steps: seq<StepEntry>) returns (stages: map<string, int>, reasons: seq<string>)
    ensures stages == StagesOf(steps) && reasons == ReasonsOf(steps)
  {
    stages, reasons := map[], [];
    var k := 0;
    while k < |steps|
      invariant 0 <= k <= |steps|
      invariant stages == StagesOf(steps[..k]) && reasons == ReasonsOf(steps[..k])
    {
      assert steps[..k + 1][..k] == steps[..k];
      if steps[k].endedAt.Some? {
        stages := stages[steps[k].name := steps[k].endedAt.value];
      }
      if steps[k].name == "ingest" {
        reasons := steps[k].reasons;
      }
      k := k + 1;
    }
    assert steps[..k] == steps;
  }

  /** One turn of the rebuild loop, through the dictionaries the repair has built. */
  method RebuildRow(src: Sources, grabs: map<string, int>, index: map<string, Carrier>, w: Wanted, h: string)
    returns (row: SpineRow)
    requires forall k :: (if k in grabs then Some(grabs[k]) else None) == GrabInstant(src.obligations, k)
    requires forall name :: (if name in index then Some(index[name]) else None) == FirstCarrier(src.runs, name)
    ensures row == Rebuilt(src, w, h)
  {
    var entry := if h in src.tracker then src.tracker[h] else TrackerEntry(None, None);
    var ingested := entry.date;
    var run: Option<string> := None;
    var stages: map<string, int> := map[];
    if entry.name.Some? && entry.name.value in index {
      run := Some(index[entry.name.value].runUid);
      stages := index[entry.name.value].stages;
    }
    if ingested.None? && "ingest" in stages {
      ingested := Some(stages["ingest"]);
    }
    var scraped := if "scrape" in stages then Some(stages["scrape"]) else None;
    var grabbed := if h in grabs && grabs[h] != 0 then Some(grabs[h]) else w.lastSearchAt;
    if w.done && src.landed(w).Some? {
      var (i, s, estimated) := InterpolateStages(grabbed, ingested, scraped, src.landed(w));
      row := SpineRow(h, w.season, grabbed, i, s, src.landed(w), Dispatched, estimated,
                      RunIf(i.Some?, run), RunIf(s.Some?, run), RunIf("dispatch" in stages, run));
    } else {
      row := SpineRow(h, w.season, grabbed, ingested, scraped, None, Grabbed, [],
                      RunIf(ingested.Some?, run), RunIf(scraped.Some?, run), None);
    }
  }

  // ---------------------------------------------------------------- the report order

  predicate StringLe(a: string, b: string) {
    a == "" || (b != "" && (a[0] < b[0] || (a[0] == b[0] && StringLe(a[1..], b[1..]))))
  }

  lemma {:induction false} StringLeTotal(a: string, b: string)
    ensures StringLe(a, b) || StringLe(b, a)
  {
    if a != "" && b != "" {
      StringLeTotal(a[1..], b[1..]);
    }
  }

  /** `(grabbed_at or 0, info_hash)` */
  predicate RowLe(a: SpineRow, b: SpineRow) {
    var x, y := if a.grabbedAt.Some? then a.grabbedAt.value else 0, if b.grabbedAt.Some? then b.grabbedAt.value else 0;
    x < y || (x == y && StringLe(a.infoHash, b.infoHash))
  }

  /** Dictionary order: a prefix first, otherwise the text whose first differing character is less. */
  lemma {:induction false} StringLeIff(a: string, b: string)
    ensures StringLe(a, b) <==>
            a <= b || exists k :: 0 <= k < |a| && k < |b| && a[..k] == b[..k] && a[k] < b[k]
    decreases |a|
  {
    if a != "" && b != "" {
      StringLeIff(a[1..], b[1..]);
      if a[0] == b[0] {
        SameHead(a, b);
      } else if a[0] < b[0] {
        assert a[..0] == b[..0];
      } else {
        forall k | 0 < k < |a| && k < |b|
          ensures a[..k] != b[..k]
        {
          assert a[..k][0] != b[..k][0];
        }
      }
    }
  }

  lemma SameHead(a: string, b: string)
    requires a != "" && b != "" && a[0] == b[0]
    ensures a <= b <==> a[1..] <= b[1..]
    ensures (exists k :: 0 <= k < |a| && k < |b| && a[..k] == b[..k] && a[k] < b[k]) <==>
            exists k :: 0 <= k < |a[1..]| && k < |b[1..]| && a[1..][..k] == b[1..][..k] && a[1..][k] < b[1..][k]
  {
    var x, y := a[1..], b[1..];
    assert a == [a[0]] + x && b == [a[0]] + y;
    if k :| 0 <= k < |a| && k < |b| && a[..k] == b[..k] && a[k] < b[k] {
      assert x[..k - 1] == a[..k][1..] && y[..k - 1] == b[..k][1..];
      assert x[k - 1] < y[k - 1];
    }
    if k :| 0 <= k < |x| && k < |y| && x[..k] == y[..k] && x[k] < y[k] {
      assert a[..k + 1] == [a[0]] + x[..k] && b[..k + 1] == [a[0]] + y[..k];
      assert a[k + 1] < b[k + 1];
    }
  }

  lemma {:induction false} StringLeAntisymmetric(a: string, b: string)
    requires StringLe(a, b) && StringLe(b, a)
    ensures a == b
    decreases |a|
  {
    if a != "" {
      StringLeAntisymmetric(a[1..], b[1..]);
      assert a == [a[0]] + a[1..] && b == [b[0]] + b[1..];
    }
  }

  /** The order of the report: a row without a grab counts as grabbed at 0, an earlier grab goes first,
      the hash decides between equal ones, and only rows alike in both are interchangeable. */
  lemma RowOrder(a: SpineRow, b: SpineRow)
    ensures RowLe(a, b) || RowLe(b, a)
    ensures a.grabbedAt.Some? && b.grabbedAt.Some? && a.grabbedAt.value < b.grabbedAt.value ==> !RowLe(b, a)
    ensures RowLe(a, b) && RowLe(b, a) ==> a.infoHash == b.infoHash
    ensures a.grabbedAt == None ==> RowLe(a, b) == RowLe(a.(grabbedAt := Some(0)), b)
    ensures b.grabbedAt == None ==> RowLe(a, b) == RowLe(a, b.(grabbedAt := Some(0)))
    ensures a.grabbedAt == b.grabbedAt ==> (RowLe(a, b) <==> StringLe(a.infoHash, b.infoHash))
  {
    StringLeTotal(a.infoHash, b.infoHash);
    if StringLe(a.infoHash, b.infoHash) && StringLe(b.infoHash, a.infoHash) {
      StringLeAntisymmetric(a.infoHash, b.infoHash);
    }
  }

  predicate Sorted(rows: seq<SpineRow>) {
    forall i :: 0 <= i < |rows| - 1 ==> RowLe(rows[i], rows[i + 1])
  }

  function InsertRow(rows: seq<SpineRow>, r: SpineRow): (out: seq<SpineRow>)
    requires Sorted(rows)
    ensures Sorted(out) && |out| == |rows| + 1
    ensures forall x :: x in out <==> x in rows || x == r
    ensures out[0] == r || (rows != [] && out[0] == rows[0])
  {
    if rows == [] then [r]
    else if RowLe(r, rows[0]) then [r] + rows
    else
      StringLeTotal(r.infoHash, rows[0].infoHash);
      assert rows == [rows[0]] + rows[1..];
      [rows[0]] + InsertRow(rows[1..], r)
  }

  predicate DistinctHashes(rows: seq<SpineRow>) {
    forall i, j :: 0 <= i < j < |rows| ==> rows[i].infoHash != rows[j].infoHash
  }

  lemma {:induction false} InsertKeepsDistinct(rows: seq<SpineRow>, r: SpineRow)
    requires Sorted(rows) && DistinctHashes(rows) && forall x :: x in rows ==> x.infoHash != r.infoHash
    ensures DistinctHashes(InsertRow(rows, r))
  {
    if rows != [] && !RowLe(r, rows[0]) {
      InsertKeepsDistinct(rows[1..], r);
      var out := InsertRow(rows[1..], r);
      assert InsertRow(rows, r) == [rows[0]] + out;
      forall x | x in out ensures x.infoHash != rows[0].infoHash {
        if x != r {
          var k :| 0 <= k < |rows[1..]| && rows[1..][k] == x;
          assert rows[k + 1] == x;
        }
      }
    }
  }

  // ---------------------------------------------------------------- the whole repair

  /** What a repair is: exactly one row per orphaned hash, rebuilt from its representative. */
  ghost predicate IsRepair(src: Sources, spine: seq<SpineRow>, rebuilt: seq<SpineRow>) {
    && DistinctHashes(rebuilt)
    && (forall w :: w in src.wanted && Orphan(w, Hashes(spine)) ==>
                      exists r :: r in rebuilt && r.infoHash == Lower(w.grabbedHash))
    && (forall r :: r in rebuilt ==> RebuiltFromSource(src, Hashes(spine), r))
  }

  ghost predicate RebuiltFromSource(src: Sources, existing: set<string>, r: SpineRow) {
    && r.infoHash !in existing && Lower(r.infoHash) == r.infoHash
    && exists i :: Represents(src.wanted, i, r.infoHash) && r == Rebuilt(src, src.wanted[i], r.infoHash)
  }

  /** `rebuilt` holds the rows of the first `n` hashes of `order`, and only those. */
  ghost predicate RowsOf(
      src: Sources, byHash: map<string, Wanted>, order: seq<string>, n: nat, rebuilt: seq<SpineRow>) {
    && n <= |order| && (forall i :: 0 <= i < |order| ==> order[i] in byHash)
    && (forall i :: 0 <= i < n ==> Rebuilt(src, byHash[order[i]], order[i]) in rebuilt)
    && (forall r :: r in rebuilt ==> exists i :: 0 <= i < n && r == Rebuilt(src, byHash[order[i]], order[i]))
  }

  lemma RowsOfStep(src: Sources, byHash: map<string, Wanted>, order: seq<string>, n: nat, rebuilt: seq<SpineRow>)
    requires OrderOf(order, byHash.Keys) && n < |order| && RowsOf(src, byHash, order, n, rebuilt)
    requires Sorted(rebuilt) && DistinctHashes(rebuilt)
    ensures var out := InsertRow(rebuilt, Rebuilt(src, byHash[order[n]], order[n]));
            RowsOf(src, byHash, order, n + 1, out) && DistinctHashes(out)
  {
    var row := Rebuilt(src, byHash[order[n]], order[n]);
    forall r | r in rebuilt
      ensures r.infoHash != row.infoHash
    {
      var i :| 0 <= i < n && r == Rebuilt(src, byHash[order[i]], order[i]);
      assert r.infoHash == order[i] && row.infoHash == order[n];
    }
    InsertKeepsDistinct(rebuilt, row);
  }

  class AcquireDb {
    var spine: seq<SpineRow>

    constructor (spine: seq<SpineRow>)
      ensures this.spine == spine
    {
      this.spine := spine;
    }

    /** Rebuilds every missing journey from `src`; writes them only when `apply`. */
    method BackfillSpine(src: Sources, apply: bool) returns (rebuilt: seq<SpineRow>)
      modifies this
      ensures IsRepair(src, old(spine), rebuilt) && Sorted(rebuilt)
      ensures spine == if apply then old(spine) + rebuilt else old(spine)
    {
      var index := RunsByRelease(src.runs);
      var grabs := GrabInstants(src.obligations);
      var byHash, order := GroupOrphans(src.wanted, Hashes(spine));
      rebuilt := [];
      var n := 0;
      while n < |order|
        invariant spine == old(spine) && 0 <= n <= |order| && Sorted(rebuilt) && DistinctHashes(rebuilt)
        invariant OrderOf(order, byHash.Keys) && RowsOf(src, byHash, order, n, rebuilt)
      {
        RowsOfStep(src, byHash, order, n, rebuilt);
        var row := RebuildRow(src, grabs, index, byHash[order[n]], order[n]);
        rebuilt := InsertRow(rebuilt, row);
        n := n + 1;
      }
      RepairFromGroups(src, spine, byHash, order, rebuilt);
      if apply {
        spine := spine + rebuilt;
      }
    }
  }

  lemma OrphanIsRebuilt(
      src: Sources, existing: set<string>, byHash: map<string, Wanted>, order: seq<string>,
      rebuilt: seq<SpineRow>, w: Wanted)
    requires GroupedUpTo(src.wanted, |src.wanted|, existing, byHash, order)
    requires RowsOf(src, byHash, order, |order|, rebuilt)
    requires w in src.wanted && Orphan(w, existing)
    ensures exists r :: r in rebuilt && r.infoHash == Lower(w.grabbedHash)
  {
    var h := Lower(w.grabbedHash);
    var i :| 0 <= i < |src.wanted| && src.wanted[i] == w;
    assert h in byHash.Keys;
    var k :| 0 <= k < |order| && order[k] == h;
    assert Rebuilt(src, byHash[order[k]], order[k]) in rebuilt;
  }

  lemma RepairFromGroups(
      src: Sources, spine: seq<SpineRow>, byHash: map<string, Wanted>, order: seq<string>, rebuilt: seq<SpineRow>)
    requires GroupedUpTo(src.wanted, |src.wanted|, Hashes(spine), byHash, order) && DistinctHashes(rebuilt)
    requires RowsOf(src, byHash, order, |order|, rebuilt)
    ensures IsRepair(src, spine, rebuilt)
  {
    forall w | w in src.wanted && Orphan(w, Hashes(spine))
      ensures exists r :: r in rebuilt && r.infoHash == Lower(w.grabbedHash)
    {
      OrphanIsRebuilt(src, Hashes(spine), byHash, order, rebuilt, w);
    }
    forall r | r in rebuilt
      ensures RebuiltFromSource(src, Hashes(spine), r)
    {
      var k :| 0 <= k < |order| && r == Rebuilt(src, byHash[order[k]], order[k]);
      RebuiltIsFromSource(src, Hashes(spine), byHash, order, order[k]);
    }
  }

  lemma RebuiltIsFromSource(
      src: Sources, existing: set<string>, byHash: map<string, Wanted>, order: seq<string>, h: string)
    requires GroupedUpTo(src.wanted, |src.wanted|, existing, byHash, order) && h in byHash
    ensures RebuiltFromSource(src, existing, Rebuilt(src, byHash[h], h))
  {
    assert src.wanted[..|src.wanted|] == src.wanted;
    assert DescribedBy(src.wanted, |src.wanted|, h, byHash[h]);
    assert Rebuilt(src, byHash[h], h).infoHash == h;
  }

  /** A second repair finds nothing to rebuild. */
  lemma SecondRepairIsEmpty(src: Sources, spine: seq<SpineRow>, rebuilt: seq<SpineRow>, again: seq<SpineRow>)
    requires IsRepair(src, spine, rebuilt) && IsRepair(src, spine + rebuilt, again)
    ensures again == []
  {
    if again != [] {
      var r := again[0];
      assert RebuiltFromSource(src, Hashes(spine + rebuilt), r);
      var i :| Represents(src.wanted, i, r.infoHash) && r == Rebuilt(src, src.wanted[i], r.infoHash);
      RepairCovers(src, spine, rebuilt, src.wanted[i]);
    }
  }

  /** After a repair every grabbed hash has a journey. */
  lemma RepairCovers(src: Sources, spine: seq<SpineRow>, rebuilt: seq<SpineRow>, w: Wanted)
    requires IsRepair(src, spine, rebuilt) && w in src.wanted && w.grabbedHash != ""
    ensures Lower(w.grabbedHash) in Hashes(spine + rebuilt)
  {
    var h, all := Lower(w.grabbedHash), spine + rebuilt;
    if Orphan(w, Hashes(spine)) {
      var r :| r in rebuilt && r.infoHash == h;
      var k :| 0 <= k < |rebuilt| && rebuilt[k] == r;
      assert all[|spine| + k] == r;
    } else {
      var k :| 0 <= k < |spine| && Lower(spine[k].infoHash) == h;
      assert all[k] == spine[k];
    }
  }

  // ---------------------------------------------------------------- who describes a shared hash

  ghost predicate CarriedBy(wanted: seq<Wanted>, h: string, kind: Kind) {
    exists j :: 0 <= j < |wanted| && Carries(wanted[j], h) && wanted[j].kind == kind
  }

  /** Kinds in words: a pack goes before a movie, a movie before an episode, an episode before any other
      kind; among rows of one kind the first. */
  lemma PackGoesFirst(wanted: seq<Wanted>, i: int, h: string)
    requires Represents(wanted, i, h)
    ensures CarriedBy(wanted, h, Season) ==> wanted[i].kind == Season
    ensures CarriedBy(wanted, h, Movie) ==> wanted[i].kind == Season || wanted[i].kind == Movie
    ensures CarriedBy(wanted, h, Episode) ==> wanted[i].kind != OtherKind
    ensures forall j :: 0 <= j < i && Carries(wanted[j], h) ==> wanted[j].kind != wanted[i].kind
  {
  }
}
