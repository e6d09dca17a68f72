/** What the run journal says about one release: the lines ingest writes, and the run a name is tied to. */
module ReleaseNames {
  import opened Options
  import opened Strings
  import opened Spine

  predicate ArrowAt(text: string, i: nat) {
    i + 3 <= |text| && text[i] == ' ' && text[i + 1] == '\U{2192}' && text[i + 2] == ' '
  }

  /** Where the first colon or arrow of `text` starts; its length when it has neither. */
  function Head(text: string): (n: nat)
    ensures n <= |text|
    ensures n < |text| ==> text[n] == ':' || ArrowAt(text, n)
    ensures forall i :: 0 <= i < n ==> text[i] != ':' && !ArrowAt(text, i)
    decreases |text|
  {
    if text == "" || text[0] == ':' || ArrowAt(text, 0) then 0
    else
      var rest := Head(text[1..]);
      assert forall i :: 0 < i < |text| ==> (ArrowAt(text, i) <==> ArrowAt(text[1..], i - 1));
      1 + rest
  }

  lemma ArrowStarts(text: string)
    ensures ARROW <= text <==> ArrowAt(text, 0)
  {
    assert ARROW == [' ', '\U{2192}', ' '];
  }

  /** Cutting at the arrow and then at the colon is cutting at whichever comes first. */
  lemma {:induction false} CutTwice(text: string)
    ensures Partition(BeforeArrow(text), ':').0 == text[..Head(text)]
    decreases |text|
  {
    ArrowStarts(text);
    if text != "" && !ArrowAt(text, 0) && text[0] != ':' {
      CutTwice(text[1..]);
    }
  }

  /** The release a line names, for every line: the text up to its first colon or arrow, stripped. */
  lemma NameIsStrippedHead(reason: string)
    ensures ReleaseName(reason) == Strip(reason[..Head(reason)])
  {
    CutTwice(reason);
  }

  // ---------------------------------------------------------------- the lines of an ingest report

  /** A line about one release: handed over, failed or passed over, or a warning. */
  datatype IngestLine =
    | Transferred(name: string, action: string)
    | Failed(name: string, error: string)
    | Warned(name: string, warning: string)

  function Reason(line: IngestLine): string {
    match line
    case Transferred(name, action) => name + ARROW + action
    case Failed(name, error) => name + ": " + error
    case Warned(name, warning) => name + " : " + warning
  }

  /** The release's name, with the blank that two of the forms put after it. */
  function Written(line: IngestLine): string {
    if line.Failed? then line.name else line.name + " "
  }

  lemma {:induction false} StripLeftOfPadded(text: string)
    ensures StripLeft(text + " ") == if StripLeft(text) == "" then "" else StripLeft(text) + " "
  {
    if text == "" {
      assert text + " " == " " && " "[1..] == "";
    } else {
      assert (text + " ")[1..] == text[1..] + " ";
      if IsSpace(text[0]) {
        StripLeftOfPadded(text[1..]);
      }
    }
  }

  lemma StripPadded(text: string)
    ensures Strip(text + " ") == Strip(text)
  {
    StripLeftOfPadded(text);
    var left := StripLeft(text);
    assert (left + " ")[..|left|] == left;
  }

  /** Texts that agree, arrows included, on the first `k` positions have the same head there. */
  lemma HeadsAgree(a: string, b: string, k: nat)
    requires k <= |a| && k <= |b|
    requires forall i :: 0 <= i < k ==> a[i] == b[i] && (ArrowAt(a, i) <==> ArrowAt(b, i))
    ensures if Head(a) < k then Head(b) == Head(a) && b[..Head(b)] == a[..Head(a)] else Head(b) >= k
  {
    if Head(a) < k {
      assert Head(b) == Head(a);
    }
  }

  lemma TransferNames(name: string, action: string)
    ensures ReleaseName(name + ARROW + action) == Strip((name + " ")[..Head(name + " ")])
  {
    var text, written := name + ARROW + action, name + " ";
    NameIsStrippedHead(text);
    HeadsAgree(written, text, |name|);
    if Head(written) >= |name| {
      assert ArrowAt(text, |name|) && written[|name|] == ' ';
      assert text[..|name|] == name && written[..|written|] == written;
      StripPadded(name);
    }
  }

  lemma ColonNames(name: string, rest: string)
    ensures ReleaseName(name + ":" + rest) == Strip(name[..Head(name)])
  {
    var text := name + ":" + rest;
    NameIsStrippedHead(text);
    HeadsAgree(name, text, |name|);
    assert text[|name|] == ':' && text[..|name|] == name && name[..|name|] == name;
  }

  lemma WarningNames(name: string, warning: string)
    ensures ReleaseName(name + " : " + warning) == Strip((name + " ")[..Head(name + " ")])
  {
    var text, written := name + " : " + warning, name + " ";
    NameIsStrippedHead(text);
    HeadsAgree(written, text, |written|);
    assert text[|written|] == ':' && text[..|written|] == written && written[..|written|] == written;
  }

  /** Which release each line is taken to be about: the line's own, unless its name has a colon or an
      arrow (its end and the blank after it included); then the release named by what comes before. */
  lemma LineNames(line: IngestLine)
    ensures ReleaseName(Reason(line)) == Strip(Written(line)[..Head(Written(line))])
  {
    match line
    case Transferred(name, action) => TransferNames(name, action);
    case Failed(name, error) =>
      assert Reason(line) == name + ":" + (" " + error);
      ColonNames(name, " " + error);
    case Warned(name, warning) => WarningNames(name, warning);
  }

  /** No colon, no blank at either end, no arrow; nor the start of one just before the separator. */
  predicate Readable(line: IngestLine) {
    && Trimmed(line.name)
    && Head(Written(line)) == |Written(line)|
  }

  /** A line gives its release's name back exactly when the name is readable in it: a name with a
      colon never does. */
  lemma ReasonReadsBack(line: IngestLine)
    ensures ReleaseName(Reason(line)) == line.name <==> Readable(line)
    ensures Readable(line) ==> ':' !in line.name
  {
    var written := Written(line);
    var head := written[..Head(written)];
    LineNames(line);
    StripCuts(head);
    StripCuts(line.name);
    StripPadded(line.name);
    if Head(written) == |written| {
      assert head == written;
      forall i | 0 <= i < |line.name|
        ensures line.name[i] != ':'
      {
        assert written[i] == line.name[i];
      }
    }
  }

  lemma TailOf(line: IngestLine) returns (tail: string)
    ensures Reason(line) == line.name + tail
  {
    match line
    case Transferred(_, action) => tail := ARROW + action;
    case Failed(_, error) => tail := ": " + error;
    case Warned(_, warning) => tail := " : " + warning;
  }

  lemma Regroup(name: string, rest: string, tail: string)
    ensures (name + ":" + rest) + tail == name + ":" + (rest + tail)
  {
  }

  /** A release whose name goes on with a colon is taken for the one named before the colon. */
  lemma ColonNameIsAnothers(line: IngestLine, name: string, rest: string)
    requires line.name == name + ":" + rest && Head(name) == |name| && Trimmed(name)
    ensures ReleaseName(Reason(line)) == name
  {
    var tail := TailOf(line);
    Regroup(name, rest, tail);
    ColonNames(name, rest + tail);
    StripCuts(name);
    assert name[..|name|] == name;
  }

  // ---------------------------------------------------------------- the run a release is tied to

  /** Some line of the run's ingest report starts with `name`, blanks around it, up to a colon, an
      arrow or the end. */
  ghost predicate Mentions(run: PipelineRow, name: string) {
    run.steps.Some? && exists reason :: reason in ReasonsOf(run.steps.value) && Strip(reason[..Head(reason)]) == name
  }

  lemma ListsIffMentions(run: PipelineRow, name: string)
    requires name != ""
    ensures Lists(run, name) <==> Mentions(run, name)
  {
    if run.steps.Some? {
      var reasons := ReasonsOf(run.steps.value);
      forall i | 0 <= i < |reasons|
        ensures ReleaseName(reasons[i]) == Strip(reasons[i][..Head(reasons[i])])
      {
        NameIsStrippedHead(reasons[i]);
      }
      if Mentions(run, name) {
        var reason :| reason in reasons && Strip(reason[..Head(reason)]) == name;
        var i :| 0 <= i < |reasons| && reasons[i] == reason;
        assert ReleaseName(reasons[i]) == name;
      }
      if Lists(run, name) {
        var i :| 0 <= i < |reasons| && ReleaseName(reasons[i]) == name;
        assert reasons[i] in reasons;
      }
    }
  }

  /** The index keeps the first run that mentions the release, in whichever way. */
  lemma {:induction false} CarrierIsFirstMention(runs: seq<PipelineRow>, name: string, f: nat)
    requires name != "" && f <= |runs| && forall i :: 0 <= i < f ==> !Mentions(runs[i], name)
    requires f < |runs| ==> Mentions(runs[f], name)
    ensures f == |runs| ==> FirstCarrier(runs, name) == None
    ensures f < |runs| ==> runs[f].steps.Some?
                           && FirstCarrier(runs, name) == Some(Carrier(runs[f].runUid, StagesOf(runs[f].steps.value)))
  {
    if runs != [] {
      var n := |runs| - 1;
      ListsIffMentions(runs[n], name);
      CarrierIsFirstMention(runs[..n], name, if f <= n then f else n);
    }
  }

  /** The run's ingest report has a line saying that `name` was handed over. */
  ghost predicate HandsOver(run: PipelineRow, name: string) {
    run.steps.Some? && exists action :: Reason(Transferred(name, action)) in ReasonsOf(run.steps.value)
  }

  lemma HandedOverIsMentioned(run: PipelineRow, name: string)
    requires Readable(Transferred(name, "")) && HandsOver(run, name)
    ensures Mentions(run, name)
  {
    var action :| Reason(Transferred(name, action)) in ReasonsOf(run.steps.value);
    ReasonReadsBack(Transferred(name, action));
    NameIsStrippedHead(Reason(Transferred(name, action)));
  }

  lemma FirstMention(runs: seq<PipelineRow>, name: string, t: nat) returns (f: nat)
    requires t < |runs| && Mentions(runs[t], name)
    ensures f <= t && Mentions(runs[f], name) && forall i :: 0 <= i < f ==> !Mentions(runs[i], name)
  {
    f := 0;
    while f < t && !Mentions(runs[f], name)
      invariant f <= t && forall i :: 0 <= i < f ==> !Mentions(runs[i], name)
    {
      f := f + 1;
    }
  }

  /** A release handed over by a run, its name readable there, is tied to that run exactly when no
      earlier run has a line about it: a failure names the release just as well, and so does the
      line of a release whose name goes on with a colon. */
  lemma CarrierHandedOverIff(runs: seq<PipelineRow>, name: string, t: nat)
    requires forall i, j :: 0 <= i < j < |runs| ==> runs[i].runUid != runs[j].runUid
    requires name != "" && Readable(Transferred(name, "")) && t < |runs| && HandsOver(runs[t], name)
    ensures FirstCarrier(runs, name).Some?
    ensures FirstCarrier(runs, name).value.runUid == runs[t].runUid
            <==> forall i :: 0 <= i < t ==> !Mentions(runs[i], name)
  {
    HandedOverIsMentioned(runs[t], name);
    var f := FirstMention(runs, name, t);
    CarrierIsFirstMention(runs, name, f);
  }

  lemma SliceKeepsHead(text: string, lo: nat, hi: nat)
    requires lo <= hi <= |text| && Head(text) == |text|
    ensures Head(text[lo..hi]) == hi - lo
  {
    var slice := text[lo..hi];
    forall i | 0 <= i < |slice|
      ensures slice[i] != ':' && !ArrowAt(slice, i)
    {
      assert !ArrowAt(text, lo + i);
    }
  }

  /** The names the index can know: trimmed, without colon or arrow. */
  lemma KnownNames(reason: string)
    ensures var name := ReleaseName(reason); Trimmed(name) && Head(name) == |name|
  {
    NameIsStrippedHead(reason);
    var head := reason[..Head(reason)];
    forall i | 0 <= i < |head|
      ensures head[i] != ':' && !ArrowAt(head, i)
    {
      assert !ArrowAt(reason, i);
    }
    StripCuts(head);
    StripLeftCuts(head);
    StripRightCuts(StripLeft(head));
    var lo := |head| - |StripLeft(head)|;
    assert Strip(head) == head[lo..lo + |Strip(head)|];
    SliceKeepsHead(head, lo, lo + |Strip(head)|);
  }

  /** A name with a colon, an arrow, or a blank at either end is tied to no run at all, whatever the
      journal says. */
  lemma {:induction false} UnreadableIsNeverCarried(runs: seq<PipelineRow>, name: string)
    requires Head(name) < |name| || !Trimmed(name)
    ensures FirstCarrier(runs, name).None?
  {
    if runs != [] {
      var n := |runs| - 1;
      UnreadableIsNeverCarried(runs[..n], name);
      if Lists(runs[n], name) {
        var reasons := ReasonsOf(runs[n].steps.value);
        var i :| 0 <= i < |reasons| && ReleaseName(reasons[i]) == name;
        KnownNames(reasons[i]);
        assert false;
      }
    }
  }
}
