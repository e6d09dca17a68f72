/** The audits of the provenance spine, and what a repair leaves for them to find. */
module SpineControl {
  import opened Options
  import opened Spine
  import opened SpineRepair

  // ---------------------------------------------------------------- the completeness check

  datatype Field = GrabbedAtField | IngestedAtField | ScrapedAtField | OrderField | IdentityField

  datatype Gap = Gap(infoHash: string, field: Field)

  /** `wanted.setdefault`: the first wanted row of a hash. */
  function FirstWanted(wanted: seq<Wanted>, h: string): Option<Wanted> {
    if wanted == [] then None
    else
      var n := |wanted| - 1;
      var earlier := FirstWanted(wanted[..n], h);
      if earlier.Some? then earlier else if Carries(wanted[n], h) then Some(wanted[n]) else None
  }

  function Known(row: SpineRow): seq<int> {
    (if row.grabbedAt.Some? then [row.grabbedAt.value] else [])
    + (if row.ingestedAt.Some? then [row.ingestedAt.value] else [])
    + (if row.scrapedAt.Some? then [row.scrapedAt.value] else [])
    + (if row.dispatchedAt.Some? then [row.dispatchedAt.value] else [])
  }

  predicate NonDecreasing(s: seq<int>) {
    forall i, j :: 0 <= i < j < |s| ==> s[i] <= s[j]
  }

  /** The repairable gaps of one journey. */
  predicate HasGap(src: Sources, row: SpineRow, field: Field) {
    var h := Lower(row.infoHash);
    var w := FirstWanted(src.wanted, h);
    match field
    case GrabbedAtField =>
      row.grabbedAt.None? && (GrabInstant(src.obligations, h).Some? || (w.Some? && w.value.lastSearchAt.Some?))
    case IngestedAtField =>
      row.ingestedAt.None? && ((h in src.tracker && src.tracker[h].date.Some?)
                               || (Carried(src, h).Some? && "ingest" in Carried(src, h).value.stages))
    case ScrapedAtField =>
      row.scrapedAt.None? && Carried(src, h).Some? && "scrape" in Carried(src, h).value.stages
    case OrderField => !NonDecreasing(Known(row))
    case IdentityField => w.Some? && w.value.season.Some? && row.season.None?
  }

  /** The check's own run index: only the stage instants, by release name. */
  method RunsByRelease(runs: seq<PipelineRow>) returns (index: map<string, map<string, int>>)
    ensures forall name :: (name in index <==> FirstCarrier(runs, name).Some?)
              && (name in index ==> index[name] == FirstCarrier(runs, name).value.stages)
  {
    index := map[];
    var n := 0;
    while n < |runs|
      invariant 0 <= n <= |runs|
      invariant forall name :: (name in index <==> FirstCarrier(runs[..n], name).Some?)
                  && (name in index ==> index[name] == FirstCarrier(runs[..n], name).value.stages)
    {
      assert runs[..n + 1][..n] == runs[..n];
      if runs[n].steps.Some? {
        var stages, reasons := ReadSteps(runs[n].steps.value);
        ghost var earlier := index;
        var i := 0;
        while i < |reasons|
          invariant 0 <= i <= |reasons|
          invariant forall name :: name in earlier ==> name in index && index[name] == earlier[name]
          invariant forall name :: name !in earlier ==>
                      (name in index <==> name != "" && NamedBefore(reasons, i, name))
          invariant forall name :: name in index && name !in earlier ==> index[name] == stages
        {
          NamedOneMore(reasons, i);
          var name := ReleaseName(reasons[i]);
          if name != "" && name !in index {
            index := index[name := stages];
          }
          i := i + 1;
        }
      }
      n := n + 1;
    }
    assert runs[..n] == runs;
  }

  method FirstWantedByHash(wanted: seq<Wanted>) returns (index: map<string, Wanted>)
    ensures forall h :: (if h in index then Some(index[h]) else None) == FirstWanted(wanted, h)
  {
    index := map[];
    var n := 0;
    while n < |wanted|
      invariant 0 <= n <= |wanted|
      invariant forall h :: (if h in index then Some(index[h]) else None) == FirstWanted(wanted[..n], h)
    {
      assert wanted[..n + 1][..n] == wanted[..n];
      var h := Lower(wanted[n].grabbedHash);
      if wanted[n].grabbedHash != "" && h !in index {
        index := index[h := wanted[n]];
      }
      n := n + 1;
    }
    assert wanted[..n] == wanted;
  }

  /** The gaps of every journey, in journey order; each names a row that has it. */
  method CollectGaps(src: Sources, spine: seq<SpineRow>) returns (gaps: seq<Gap>)
    ensures forall g :: g in gaps <==>
              exists i :: 0 <= i < |spine| && g.infoHash == Lower(spine[i].infoHash) && HasGap(src, spine[i], g.field)
  {
    var runs := RunsByRelease(src.runs);
    var obligations := GrabInstants(src.obligations);
    var wanted := FirstWantedByHash(src.wanted);
    gaps := [];
    var n := 0;
    while n < |spine|
      invariant 0 <= n <= |spine|
      invariant forall g :: g in gaps <==>
                exists i :: 0 <= i < n && g.infoHash == Lower(spine[i].infoHash) && HasGap(src, spine[i], g.field)
    {
      var more := GapsOfRow(src, spine[n], runs, obligations, wanted);
      gaps := gaps + more;
      n := n + 1;
    }
  }

  function Append(gaps: seq<Gap>, found: bool, g: Gap): (r: seq<Gap>)
    ensures forall x :: x in r <==> x in gaps || (found && x == g)
  {
    if found then gaps + [g] else gaps
  }

  method GapsOfRow(src: Sources, row: SpineRow, runs: map<string, map<string, int>>,
                   obligations: map<string, int>, wanted: map<string, Wanted>)
    returns (gaps: seq<Gap>)
    requires forall name :: (name in runs <==> FirstCarrier(src.runs, name).Some?)
               && (name in runs ==> runs[name] == FirstCarrier(src.runs, name).value.stages)
    requires forall h :: (if h in obligations then Some(obligations[h]) else None) == GrabInstant(src.obligations, h)
    requires forall h :: (if h in wanted then Some(wanted[h]) else None) == FirstWanted(src.wanted, h)
    ensures forall g :: g in gaps <==> g.infoHash == Lower(row.infoHash) && HasGap(src, row, g.field)
  {
    var h := Lower(row.infoHash);
    var entry := if h in src.tracker then src.tracker[h] else TrackerEntry(None, None);
    var stages: map<string, int> :=
      if entry.name.Some? && entry.name.value in runs then runs[entry.name.value] else map[];
    assert Carried(src, h) == if entry.name.Some? then FirstCarrier(src.runs, entry.name.value) else None;
    var grabGap := row.grabbedAt.None? && (h in obligations || (h in wanted && wanted[h].lastSearchAt.Some?));
    assert grabGap <==> HasGap(src, row, GrabbedAtField);
    var ingestGap := row.ingestedAt.None? && (entry.date.Some? || "ingest" in stages);
    assert ingestGap <==> HasGap(src, row, IngestedAtField);
    var scrapeGap := row.scrapedAt.None? && "scrape" in stages;
    assert scrapeGap <==> HasGap(src, row, ScrapedAtField);
    var orderGap := !NonDecreasing(Known(row));
    var identityGap := h in wanted && wanted[h].season.Some? && row.season.None?;
    assert identityGap <==> HasGap(src, row, IdentityField);
    gaps := GapList(h, grabGap, ingestGap, scrapeGap, orderGap, identityGap);
    forall g
      ensures g in gaps <==> g.infoHash == h && HasGap(src, row, g.field)
    {
      assert g == Gap(g.infoHash, g.field);
    }
  }

  function GapList(h: string, grab: bool, ingest: bool, scrape: bool, order: bool, identity: bool): (r: seq<Gap>)
    ensures forall g :: g in r <==> g.infoHash == h && match g.field
                                                      case GrabbedAtField => grab
                                                      case IngestedAtField => ingest
                                                      case ScrapedAtField => scrape
                                                      case OrderField => order
                                                      case IdentityField => identity
  {
    Append(Append(Append(Append(Append([], grab, Gap(h, GrabbedAtField)), ingest, Gap(h, IngestedAtField)),
                         scrape, Gap(h, ScrapedAtField)), order, Gap(h, OrderField)), identity, Gap(h, IdentityField))
  }

  // ---------------------------------------------------------------- the coherence audit

  /** The status the audit sees for a hash: the last row of that hash. */
  function StatusOf(spine: seq<SpineRow>, h: string): Option<SpineStatus> {
    if spine == [] then None
    else
      var n := |spine| - 1;
      if Lower(spine[n].infoHash) == h then Some(spine[n].status) else StatusOf(spine[..n], h)
  }

  predicate RowMissing(spine: seq<SpineRow>, w: Wanted) {
    w.grabbedHash != "" && StatusOf(spine, Lower(w.grabbedHash)).None?
  }

  predicate DispatchMissing(spine: seq<SpineRow>, w: Wanted) {
    var status := StatusOf(spine, Lower(w.grabbedHash));
    w.grabbedHash != "" && status.Some? && w.done && status.value != Dispatched && status.value != Reconciled
  }

  datatype Rule = SpineRowMissing | SpineDispatchMissing

  datatype Anomaly = Anomaly(rule: Rule, wantedId: int)

  /** Rules 14 and 15: never both on the same row. */
  method SpineAnomalies(wanted: seq<Wanted>, spine: seq<SpineRow>) returns (anomalies: seq<Anomaly>)
    ensures forall a :: a in anomalies <==>
              exists i :: 0 <= i < |wanted| && a.wantedId == wanted[i].id
                          && (if a.rule == SpineRowMissing then RowMissing(spine, wanted[i])
                              else DispatchMissing(spine, wanted[i]))
  {
    var status: map<string, SpineStatus> := map[];
    var k := 0;
    while k < |spine|
      invariant 0 <= k <= |spine|
      invariant forall h :: (if h in status then Some(status[h]) else None) == StatusOf(spine[..k], h)
    {
      assert spine[..k + 1][..k] == spine[..k];
      status := status[Lower(spine[k].infoHash) := spine[k].status];
      k := k + 1;
    }
    assert spine[..k] == spine;
    anomalies := [];
    var n := 0;
    while n < |wanted|
      invariant 0 <= n <= |wanted|
      invariant forall a :: a in anomalies <==>
                  exists i :: 0 <= i < n && a.wantedId == wanted[i].id
                              && (if a.rule == SpineRowMissing then RowMissing(spine, wanted[i])
                                  else DispatchMissing(spine, wanted[i]))
    {
      var w := wanted[n];
      var h := Lower(w.grabbedHash);
      if w.grabbedHash != "" {
        if h !in status {
          anomalies := anomalies + [Anomaly(SpineRowMissing, w.id)];
        } else if w.done && status[h] != Dispatched && status[h] != Reconciled {
          anomalies := anomalies + [Anomaly(SpineDispatchMissing, w.id)];
        }
      }
      n := n + 1;
    }
  }

  lemma {:induction false} StatusIffPresent(spine: seq<SpineRow>, h: string)
    ensures StatusOf(spine, h).Some? <==> h in Hashes(spine)
  {
    if spine != [] {
      var n := |spine| - 1;
      StatusIffPresent(spine[..n], h);
      if h in Hashes(spine) && Lower(spine[n].infoHash) != h {
        var i :| 0 <= i < |spine| && Lower(spine[i].infoHash) == h;
        assert spine[..n][i] == spine[i];
      }
      if h in Hashes(spine[..n]) {
        var i :| 0 <= i < n && Lower(spine[..n][i].infoHash) == h;
        assert spine[i] == spine[..n][i];
      }
      if Lower(spine[n].infoHash) == h {
        assert h in Hashes(spine);
      }
    }
  }

  // ---------------------------------------------------------------- repair discharges control

  /** After a repair the audit reports no missing spine row. */
  lemma NoRowMissing(src: Sources, spine: seq<SpineRow>, rebuilt: seq<SpineRow>, w: Wanted)
    requires IsRepair(src, spine, rebuilt) && w in src.wanted
    ensures !RowMissing(spine + rebuilt, w)
  {
    if w.grabbedHash != "" {
      RepairCovers(src, spine, rebuilt, w);
      StatusIffPresent(spine + rebuilt, Lower(w.grabbedHash));
    }
  }

  /** On the same sources a rebuilt journey has no ingest gap and no scrape gap. */
  lemma NoStageGap(src: Sources, spine: seq<SpineRow>, rebuilt: seq<SpineRow>, r: SpineRow)
    requires IsRepair(src, spine, rebuilt) && r in rebuilt
    ensures !HasGap(src, r, IngestedAtField) && !HasGap(src, r, ScrapedAtField)
  {
    assert RebuiltFromSource(src, Hashes(spine), r);
    var i :| Represents(src.wanted, i, r.infoHash) && r == Rebuilt(src, src.wanted[i], r.infoHash);
  }

  lemma KnownInOrder(row: SpineRow)
    ensures NonDecreasing(Known(row)) <==> InOrder(row.grabbedAt, row.ingestedAt, row.scrapedAt, row.dispatchedAt)
  {
    var k := Known(row);
    var a := if row.grabbedAt.Some? then 1 else 0;
    var b := a + if row.ingestedAt.Some? then 1 else 0;
    var c := b + if row.scrapedAt.Some? then 1 else 0;
    assert row.grabbedAt.Some? ==> k[0] == row.grabbedAt.value;
    assert row.ingestedAt.Some? ==> k[a] == row.ingestedAt.value;
    assert row.scrapedAt.Some? ==> k[b] == row.scrapedAt.value;
    assert row.dispatchedAt.Some? ==> k[c] == row.dispatchedAt.value;
  }

  /** The order gap fires on a rebuilt journey iff its observed instants already contradict the
      workflow: interpolation neither causes nor hides one. */
  lemma OrderGapIffObserved(src: Sources, spine: seq<SpineRow>, rebuilt: seq<SpineRow>, r: SpineRow, i: nat)
    requires IsRepair(src, spine, rebuilt) && r in rebuilt
    requires Represents(src.wanted, i, r.infoHash) && r == Rebuilt(src, src.wanted[i], r.infoHash)
    ensures var w, h := src.wanted[i], r.infoHash;
            HasGap(src, r, OrderField) <==>
            !InOrder(ObservedGrab(src, w, h), ObservedIngest(src, h), ObservedScrape(src, h),
                     if Landed(src, w) then src.landed(w) else None)
  {
    var w, h := src.wanted[i], r.infoHash;
    KnownInOrder(r);
    InterpolationIsHonest(ObservedGrab(src, w, h), ObservedIngest(src, h), ObservedScrape(src, h), src.landed(w));
  }

  lemma {:induction false} FirstWantedExists(wanted: seq<Wanted>, i: nat, h: string)
    requires i < |wanted| && Carries(wanted[i], h)
    ensures FirstWanted(wanted, h).Some?
    decreases |wanted|
  {
    if i < |wanted| - 1 {
      FirstWantedExists(wanted[..|wanted| - 1], i, h);
    }
  }

  lemma {:induction false} OnlyCarrier(wanted: seq<Wanted>, i: nat, h: string)
    requires i < |wanted| && Carries(wanted[i], h)
    requires forall j :: 0 <= j < |wanted| && Carries(wanted[j], h) ==> j == i
    ensures FirstWanted(wanted, h) == Some(wanted[i])
    decreases |wanted|
  {
    var n := |wanted| - 1;
    if i < n {
      assert forall j :: 0 <= j < n ==> wanted[..n][j] == wanted[j];
      OnlyCarrier(wanted[..n], i, h);
    } else {
      NoCarrier(wanted[..n], h);
    }
  }

  lemma {:induction false} NoCarrier(wanted: seq<Wanted>, h: string)
    requires forall j :: 0 <= j < |wanted| ==> !Carries(wanted[j], h)
    ensures FirstWanted(wanted, h) == None
    decreases |wanted|
  {
    if wanted != [] {
      NoCarrier(wanted[..|wanted| - 1], h);
    }
  }

  /** The gaps the repair leaves because it describes a journey by the representative of its wanted rows
      and the check by the first.  Identity: the first has a season, the representative none.  Grab: the
      representative was never searched, and the earliest obligation is dated 0, or there is none and
      the first was searched. */
  lemma RowGapsIff(src: Sources, spine: seq<SpineRow>, rebuilt: seq<SpineRow>, r: SpineRow, i: nat)
    requires IsRepair(src, spine, rebuilt) && r in rebuilt
    requires Represents(src.wanted, i, r.infoHash) && r == Rebuilt(src, src.wanted[i], r.infoHash)
    ensures FirstWanted(src.wanted, r.infoHash).Some?
    ensures var first, w := FirstWanted(src.wanted, r.infoHash).value, src.wanted[i];
            var obligation := GrabInstant(src.obligations, r.infoHash);
            && (HasGap(src, r, IdentityField) <==> first.season.Some? && w.season.None?)
            && (HasGap(src, r, GrabbedAtField) <==>
                  && w.lastSearchAt.None?
                  && (obligation == Some(0) || (obligation == None && first.lastSearchAt.Some?)))
  {
    assert RebuiltFromSource(src, Hashes(spine), r);
    FirstWantedExists(src.wanted, i, r.infoHash);
  }

  /** When a single wanted row carries the hash, a rebuilt journey has no identity gap, and a grab gap
      in one case only: the row was never searched and its earliest obligation is dated 0. */
  lemma SingleRowGaps(src: Sources, spine: seq<SpineRow>, rebuilt: seq<SpineRow>, r: SpineRow, i: nat)
    requires IsRepair(src, spine, rebuilt) && r in rebuilt
    requires Represents(src.wanted, i, r.infoHash) && r == Rebuilt(src, src.wanted[i], r.infoHash)
    requires forall j :: 0 <= j < |src.wanted| && Carries(src.wanted[j], r.infoHash) ==> j == i
    ensures !HasGap(src, r, IdentityField)
    ensures HasGap(src, r, GrabbedAtField) <==>
            src.wanted[i].lastSearchAt.None? && GrabInstant(src.obligations, r.infoHash) == Some(0)
  {
    RowGapsIff(src, spine, rebuilt, r, i);
    OnlyCarrier(src.wanted, i, r.infoHash);
  }

  lemma {:induction false} StatusOfRebuilt(spine: seq<SpineRow>, rebuilt: seq<SpineRow>, r: SpineRow)
    requires r in rebuilt && DistinctHashes(rebuilt) && forall x :: x in rebuilt ==> Lower(x.infoHash) == x.infoHash
    ensures StatusOf(spine + rebuilt, r.infoHash) == Some(r.status)
    decreases |rebuilt|
  {
    var n := |rebuilt| - 1;
    var all := spine + rebuilt;
    assert all[|all| - 1] == rebuilt[n];
    assert all[..|all| - 1] == spine + rebuilt[..n];
    if rebuilt[n] != r {
      var k :| 0 <= k < |rebuilt| && rebuilt[k] == r;
      assert rebuilt[..n][k] == r;
      forall x | x in rebuilt[..n] ensures Lower(x.infoHash) == x.infoHash { assert x in rebuilt; }
      StatusOfRebuilt(spine, rebuilt[..n], r);
    }
  }

  /** The dispatch rule remains on a repaired journey exactly when a closed wanted row's representative
      could not be proven to have landed. */
  lemma DispatchMissingIff(src: Sources, spine: seq<SpineRow>, rebuilt: seq<SpineRow>, r: SpineRow, i: nat, w: Wanted)
    requires IsRepair(src, spine, rebuilt) && r in rebuilt && Carries(w, r.infoHash)
    requires Represents(src.wanted, i, r.infoHash) && r == Rebuilt(src, src.wanted[i], r.infoHash)
    ensures DispatchMissing(spine + rebuilt, w) <==> w.done && !Landed(src, src.wanted[i])
  {
    forall x | x in rebuilt
      ensures Lower(x.infoHash) == x.infoHash
    {
      assert RebuiltFromSource(src, Hashes(spine), x);
    }
    StatusOfRebuilt(spine, rebuilt, r);
  }

  // ---------------------------------------------------------------- what the audits mean

  /** The check asks for an ingest or a scrape instant exactly when the repair would find one. */
  lemma StageGapIffObserved(src: Sources, row: SpineRow)
    ensures var h := Lower(row.infoHash);
            && (HasGap(src, row, IngestedAtField) <==> row.ingestedAt.None? && ObservedIngest(src, h).Some?)
            && (HasGap(src, row, ScrapedAtField) <==> row.scrapedAt.None? && ObservedScrape(src, h).Some?)
  {
  }

  /** The audit goes by the last journey of the hash; it reports a closed row's when that is still only
      grabbed, or in a state it does not know, never when it is dispatched or reconciled. */
  lemma DispatchMissingMeans(earlier: seq<SpineRow>, row: SpineRow, w: Wanted)
    requires Carries(w, Lower(row.infoHash))
    ensures DispatchMissing(earlier + [row], w) <==> w.done && (row.status == Grabbed || row.status == OtherStatus)
    ensures !RowMissing(earlier + [row], w)
  {
    var all := earlier + [row];
    assert all[..|all| - 1] == earlier;
  }
}
