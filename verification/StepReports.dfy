/** Step reports: recording item progress into one, and merging two. */
module StepReports {
  import opened Options

  datatype Report = Report(
    name: string, successes: int, skips: int, errors: int,
    warnings: seq<string>, details: seq<string>, status: Option<string>,
    counts: map<string, int>, failedItems: seq<string>, renames: map<string, string>,
    unmatched: seq<string>, payload: Option<map<string, string>>)

  function Empty(name: string): Report {
    Report(name, 0, 0, 0, [], [], None, map[], [], map[], [], None)
  }

  // ---------------------------------------------------------------- merge

  /** Shared keys add up. */
  function AddCounts(a: map<string, int>, b: map<string, int>): map<string, int> {
    map k | k in a.Keys + b.Keys :: (if k in a then a[k] else 0) + (if k in b then b[k] else 0)
  }

  function MergePayload(a: Option<map<string, string>>, b: Option<map<string, string>>): Option<map<string, string>> {
    if a.None? && b.None? then None
    else Some((if a.Some? then a.value else map[]) + (if b.Some? then b.value else map[]))
  }

  /** `merge` on reports of one step. */
  function Merged(a: Report, b: Report): Report {
    Report(a.name, a.successes + b.successes, a.skips + b.skips, a.errors + b.errors,
           a.warnings + b.warnings, a.details + b.details, if b.status.Some? then b.status else a.status,
           AddCounts(a.counts, b.counts), a.failedItems + b.failedItems, a.renames + b.renames,
           a.unmatched + b.unmatched, MergePayload(a.payload, b.payload))
  }

  /** The loop that sums shared keys. */
  method CombineCounts(a: map<string, int>, b: map<string, int>) returns (counts: map<string, int>)
    ensures counts == AddCounts(a, b)
  {
    counts := a;
    var left := b.Keys;
    while left != {}
      invariant left <= b.Keys && counts.Keys == a.Keys + (b.Keys - left)
      invariant forall k :: k in counts ==>
                  counts[k] == (if k in a then a[k] else 0) + (if k in b && k !in left then b[k] else 0)
      decreases |left|
    {
      var k :| k in left;
      if k in counts {
        counts := counts[k := counts[k] + b[k]];
      } else {
        counts := counts[k := b[k]];
      }
      left := left - {k};
    }
  }

  method CombinePayloads(a: Option<map<string, string>>, b: Option<map<string, string>>)
    returns (payload: Option<map<string, string>>)
    ensures payload == MergePayload(a, b)
  {
    payload := None;
    if a.Some? || b.Some? {
      var all: map<string, string> := map[];
      if a.Some? {
        all := all + a.value;
        assert all == a.value;
      }
      if b.Some? {
        all := all + b.value;
      }
      ghost var nothing: map<string, string> := map[];
      assert (if a.Some? then a.value else map[]) + nothing == if a.Some? then a.value else map[];
      payload := Some(all);
    }
  }

  /** `StepReport.merge`; `None` is the ValueError on different names. */
  method Merge(a: Report, b: Report) returns (r: Option<Report>)
    ensures r == if a.name == b.name then Some(Merged(a, b)) else None
  {
    if a.name != b.name {
      return None;
    }
    var counts := CombineCounts(a.counts, b.counts);
    var payload := CombinePayloads(a.payload, b.payload);
    r := Some(Report(a.name, a.successes + b.successes, a.skips + b.skips, a.errors + b.errors,
                     a.warnings + b.warnings, a.details + b.details, if b.status.Some? then b.status else a.status,
                     counts, a.failedItems + b.failedItems, a.renames + b.renames, a.unmatched + b.unmatched, payload));
  }

  lemma ListsAssociate(a: seq<string>, b: seq<string>, c: seq<string>)
    ensures (a + b) + c == a + (b + c)
  {
  }

  lemma NamesAssociate(a: map<string, string>, b: map<string, string>, c: map<string, string>)
    ensures (a + b) + c == a + (b + c)
  {
  }

  lemma CountsAssociate(a: map<string, int>, b: map<string, int>, c: map<string, int>)
    ensures AddCounts(AddCounts(a, b), c) == AddCounts(a, AddCounts(b, c))
  {
    var l, r := AddCounts(AddCounts(a, b), c), AddCounts(a, AddCounts(b, c));
    assert l.Keys == a.Keys + b.Keys + c.Keys == r.Keys;
  }

  lemma PayloadsAssociate(
      a: Option<map<string, string>>, b: Option<map<string, string>>, c: Option<map<string, string>>)
    ensures MergePayload(MergePayload(a, b), c) == MergePayload(a, MergePayload(b, c))
  {
    var x := if a.Some? then a.value else map[];
    var y := if b.Some? then b.value else map[];
    var z := if c.Some? then c.value else map[];
    var none: map<string, string> := map[];
    assert (x + y) + z == x + (y + z);
    assert none + none == none && none + z == z && x + none == x;
  }

  /** Merging is associative on every field. */
  lemma MergeAssociates(a: Report, b: Report, c: Report)
    ensures Merged(Merged(a, b), c) == Merged(a, Merged(b, c))
  {
    CountsAssociate(a.counts, b.counts, c.counts);
    PayloadsAssociate(a.payload, b.payload, c.payload);
    ListsAssociate(a.warnings, b.warnings, c.warnings);
    ListsAssociate(a.details, b.details, c.details);
    ListsAssociate(a.failedItems, b.failedItems, c.failedItems);
    ListsAssociate(a.unmatched, b.unmatched, c.unmatched);
    NamesAssociate(a.renames, b.renames, c.renames);
  }

  /** The empty report of the step is neutral on both sides. */
  lemma EmptyIsNeutral(r: Report)
    ensures Merged(r, Empty(r.name)) == r && Merged(Empty(r.name), r) == r
  {
    var none: map<string, int> := map[];
    assert AddCounts(r.counts, none) == r.counts && AddCounts(none, r.counts) == r.counts;
    var noNames: map<string, string> := map[];
    assert r.renames + noNames == r.renames && noNames + r.renames == r.renames;
    if r.payload.Some? {
      assert r.payload.value + noNames == r.payload.value && noNames + r.payload.value == r.payload.value;
    }
  }

  // ---------------------------------------------------------------- record

  const SUCCESS_STATUSES: set<string> :=
    {"copied", "matched", "moved", "fixed", "ok", "cleaned", "replaced", "merged", "removed"}
  const SKIP_STATUSES: set<string> := {"skipped", "skipped_low_confidence", "blocked", "queued_for_decision"}
  const ERROR_STATUSES: set<string> := {"failed", "error"}

  /** One call of `record`. */
  datatype Item = Item(step: string, item: string, status: string, detail: Option<string>, warning: Option<string>,
                       eventDetails: Option<map<string, string>>)

  datatype ItemProgressed = ItemProgressed(step: string, item: string, status: string, details: map<string, string>)

  function EventOf(x: Item): ItemProgressed {
    ItemProgressed(x.step, x.item, x.status, if x.eventDetails.Some? then x.eventDetails.value else map[])
  }

  function Listed(o: Option<string>): seq<string> {
    if o.Some? then [o.value] else []
  }

  /** The report that holds this one item. */
  function Single(name: string, x: Item): Report {
    Empty(name).(
      successes := if x.status in SUCCESS_STATUSES then 1 else 0,
      skips := if x.status in SKIP_STATUSES then 1 else 0,
      errors := if x.status in ERROR_STATUSES then 1 else 0,
      details := Listed(x.detail), warnings := Listed(x.warning))
  }

  /** Merging the items' reports one after the other. */
  function Summary(name: string, items: seq<Item>): Report {
    if items == [] then Empty(name)
    else Merged(Summary(name, items[..|items| - 1]), Single(name, items[|items| - 1]))
  }

  class EventBus {
    var events: seq<ItemProgressed>

    constructor ()
      ensures events == []
    {
      events := [];
    }

    method Emit(e: ItemProgressed)
      modifies this
      ensures events == old(events) + [e]
    {
      events := events + [e];
    }
  }

  class StepReport {
    var report: Report

    constructor (name: string)
      ensures report == Empty(name)
    {
      report := Empty(name);
    }

    /** Emits one event and merges the item's own report into this one. */
    method Record(bus: EventBus, x: Item)
      modifies this, bus
      ensures report == Merged(old(report), Single(old(report).name, x))
      ensures bus.events == old(bus.events) + [EventOf(x)]
    {
      StatusesAreDisjoint();
      bus.Emit(EventOf(x));
      ghost var was := report;
      if x.status in SUCCESS_STATUSES {
        report := report.(successes := report.successes + 1);
      } else if x.status in SKIP_STATUSES {
        report := report.(skips := report.skips + 1);
      } else if x.status in ERROR_STATUSES {
        report := report.(errors := report.errors + 1);
      }
      if x.detail.Some? {
        report := report.(details := report.details + [x.detail.value]);
      }
      if x.warning.Some? {
        report := report.(warnings := report.warnings + [x.warning.value]);
      }
      EmptyIsNeutral(was);
      assert Merged(was, Empty(was.name)).counts == was.counts;
    }

    /** A step recording its items in turn: the report is the merge of theirs, one event each. */
    method RecordAll(bus: EventBus, items: seq<Item>)
      requires report == Empty(report.name)
      modifies this, bus
      ensures report == Summary(old(report).name, items)
      ensures bus.events == old(bus.events) + Events(items)
    {
      var i := 0;
      while i < |items|
        invariant 0 <= i <= |items|
        invariant report == Summary(old(report).name, items[..i]) && report.name == old(report).name
        invariant bus.events == old(bus.events) + Events(items[..i])
      {
        assert items[..i + 1][..i] == items[..i];
        Record(bus, items[i]);
        i := i + 1;
      }
      assert items[..i] == items;
    }
  }

  function Events(items: seq<Item>): seq<ItemProgressed> {
    if items == [] then [] else Events(items[..|items| - 1]) + [EventOf(items[|items| - 1])]
  }

  lemma StatusesAreDisjoint()
    ensures SUCCESS_STATUSES !! SKIP_STATUSES && SUCCESS_STATUSES !! ERROR_STATUSES && SKIP_STATUSES !! ERROR_STATUSES
  {
  }

  /** Recording is a homomorphism: the report of two batches is the merge of their reports. */
  lemma {:induction false} SummaryOfJoin(name: string, xs: seq<Item>, ys: seq<Item>)
    ensures Summary(name, xs + ys) == Merged(Summary(name, xs), Summary(name, ys))
    decreases |ys|
  {
    SummaryName(name, xs);
    if ys == [] {
      EmptyIsNeutral(Summary(name, xs));
      assert xs + ys == xs;
    } else {
      var n := |ys| - 1;
      assert (xs + ys)[..|xs + ys| - 1] == xs + ys[..n];
      SummaryOfJoin(name, xs, ys[..n]);
      MergeAssociates(Summary(name, xs), Summary(name, ys[..n]), Single(name, ys[n]));
    }
  }

  lemma {:induction false} SummaryName(name: string, items: seq<Item>)
    ensures Summary(name, items).name == name
    decreases |items|
  {
    if items != [] {
      SummaryName(name, items[..|items| - 1]);
    }
  }

  function Terminal(items: seq<Item>): nat {
    if items == [] then 0
    else
      var s := items[|items| - 1].status;
      Terminal(items[..|items| - 1])
      + (if s in SUCCESS_STATUSES || s in SKIP_STATUSES || s in ERROR_STATUSES then 1 else 0)
  }

  /** The three counters add up to the number of terminal statuses recorded. */
  lemma {:induction false} CountersCountTerminals(name: string, items: seq<Item>)
    ensures var r := Summary(name, items); r.successes + r.skips + r.errors == Terminal(items)
    decreases |items|
  {
    if items != [] {
      StatusesAreDisjoint();
      CountersCountTerminals(name, items[..|items| - 1]);
    }
  }

  // ---------------------------------------------------------------- which side wins, which status counts

  /** Merging keeps the first report's entries before the second's, and lets the second win where both
      say something: its status when it has one, its names, its payload entries. */
  lemma MergePrefersLater(a: Report, b: Report)
    requires a.name == b.name
    ensures var r := Merged(a, b);
            && (r.status == if b.status == None then a.status else b.status)
            && |r.warnings| == |a.warnings| + |b.warnings| && a.warnings <= r.warnings
            && r.warnings[|a.warnings|..] == b.warnings
            && |r.details| == |a.details| + |b.details| && a.details <= r.details
            && r.details[|a.details|..] == b.details
            && |r.failedItems| == |a.failedItems| + |b.failedItems| && a.failedItems <= r.failedItems
            && r.failedItems[|a.failedItems|..] == b.failedItems
            && |r.unmatched| == |a.unmatched| + |b.unmatched| && a.unmatched <= r.unmatched
            && r.unmatched[|a.unmatched|..] == b.unmatched
    ensures var r := Merged(a, b);
            && (forall k :: k in r.renames <==> k in a.renames || k in b.renames)
            && (forall k :: k in b.renames ==> r.renames[k] == b.renames[k])
            && (forall k :: k in a.renames && k !in b.renames ==> r.renames[k] == a.renames[k])
    ensures var r := Merged(a, b);
            && (r.payload == None <==> a.payload == None && b.payload == None)
            && (b.payload.Some? ==> forall k :: k in b.payload.value ==>
                  k in r.payload.value && r.payload.value[k] == b.payload.value[k])
            && (a.payload.Some? ==> forall k :: k in a.payload.value && (b.payload.None? || k !in b.payload.value) ==>
                  k in r.payload.value && r.payload.value[k] == a.payload.value[k])
  {
  }

  /** Counters and counts add up. */
  lemma MergeAdds(a: Report, b: Report, k: string)
    ensures var r := Merged(a, b);
            && r.successes == a.successes + b.successes && r.skips == a.skips + b.skips
            && r.errors == a.errors + b.errors
            && (k in r.counts <==> k in a.counts || k in b.counts)
            && (k in a.counts && k in b.counts ==> r.counts[k] == a.counts[k] + b.counts[k])
            && (k in a.counts && k !in b.counts ==> r.counts[k] == a.counts[k])
            && (k !in a.counts && k in b.counts ==> r.counts[k] == b.counts[k])
  {
  }

  /** Which counter each status raises; a status outside the three groups raises none. */
  lemma StatusCounts(name: string, x: Item)
    ensures var r := Single(name, x);
            && (r.successes == 1 <==>
                  x.status in ["copied", "matched", "moved", "fixed", "ok", "cleaned", "replaced", "merged", "removed"])
            && (r.skips == 1 <==> x.status in ["skipped", "skipped_low_confidence", "blocked", "queued_for_decision"])
            && (r.errors == 1 <==> x.status in ["failed", "error"])
            && 0 <= r.successes <= 1 && 0 <= r.skips <= 1 && 0 <= r.errors <= 1
            && r.successes + r.skips + r.errors <= 1
  {
    StatusesAreDisjoint();
  }
}
