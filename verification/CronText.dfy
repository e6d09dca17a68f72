/** From the text of a cron expression to the minute it fires at. */
module CronText {
  import opened Strings
  import opened Calendar
  import opened Cron
  import opened CronFields

  predicate ValidText(fields: seq<string>) {
    && |fields| == 5
    && ValidField(fields[0], 0, 59) && ValidField(fields[1], 0, 23) && ValidField(fields[2], 1, 31)
    && ValidField(fields[3], 1, 12) && ValidField(fields[4], 0, 7)
  }

  /** The weekday field counts Sunday as 0 and as 7. */
  ghost predicate NamesWeekday(field: string, d: Date)
    requires ValidDate(d)
  {
    Names(field, 0, 7, Weekday(d)) || (Weekday(d) == 0 && Names(field, 0, 7, 7))
  }

  /** What the five fields say of one minute: when both day fields are written, either is enough. */
  ghost predicate TextMatches(fields: seq<string>, s: Stamp)
    requires |fields| == 5 && Valid(s)
  {
    var day, weekday := Names(fields[2], 1, 31, s.date.day), NamesWeekday(fields[4], s.date);
    && Names(fields[3], 1, 12, s.date.month)
    && (if fields[2] != "*" && fields[4] != "*" then day || weekday else day && weekday)
    && Names(fields[1], 0, 23, s.hour)
    && Names(fields[0], 0, 59, s.minute)
  }

  lemma ParsedMatches(e: Expression, fields: seq<string>, s: Stamp)
    requires |fields| == 5 && Valid(s)
    requires ExactlyNamed(e.minutes, fields[0], 0, 59) && ExactlyNamed(e.hours, fields[1], 0, 23)
    requires ExactlyNamed(e.days, fields[2], 1, 31) && ExactlyNamed(e.months, fields[3], 1, 12)
    requires FoldedWeekdays(e.weekdays, fields[4])
    requires e.dayRestricted == (fields[2] != "*") && e.weekdayRestricted == (fields[4] != "*")
    ensures Matches(e, s) <==> TextMatches(fields, s)
  {
    assert 0 <= Weekday(s.date) < 7;
    assert Weekday(s.date) in e.weekdays <==> NamesWeekday(fields[4], s.date);
  }

  /** `at` is the least minute after `after` that the text matches. */
  ghost predicate FirstMatch(fields: seq<string>, after: Stamp, at: Stamp)
    requires |fields| == 5
  {
    && Valid(at) && Before(after, at) && TextMatches(fields, at)
    && forall u :: Valid(u) && Before(after, u) && TextMatches(fields, u) ==> u == at || Before(at, u)
  }

  /** Both errors are a `ValueError`. */
  datatype Answer = Fires(at: Stamp) | NeverMatches | Malformed

  /** `next_fire(cron, after)` */
  method NextFireOf(cron: string, after: Stamp) returns (answer: Answer)
    requires Valid(after)
    ensures answer.Malformed? <==> !ValidText(Words(cron))
    ensures answer.Fires? ==>
              ValidText(Words(cron)) && InWindow(after, answer.at) && FirstMatch(Words(cron), after, answer.at)
    ensures answer.NeverMatches? ==>
              ValidText(Words(cron)) && forall u :: InWindow(after, u) ==> !TextMatches(Words(cron), u)
  {
    var parsed := Parse(cron);
    if parsed.None? {
      return Malformed;
    }
    var e := parsed.value;
    forall u | Valid(u)
      ensures Matches(e, u) <==> TextMatches(Words(cron), u)
    {
      ParsedMatches(e, Words(cron), u);
    }
    var fire := NextFire(e, after);
    if fire.None? {
      return NeverMatches;
    }
    answer := Fires(fire.value);
  }

  // ---------------------------------------------------------------- what an author writes

  ghost predicate Means(terms: seq<Term>, low: int, high: int, v: int) {
    exists i :: 0 <= i < |terms| && InStride(v, Meaning(terms[i], low, high))
  }

  predicate LegalField(terms: seq<Term>, low: int, high: int) {
    terms != [] && forall i :: 0 <= i < |terms| ==> Legal(terms[i], low, high)
  }

  predicate LegalFields(fields: seq<seq<Term>>) {
    && |fields| == 5
    && LegalField(fields[0], 0, 59) && LegalField(fields[1], 0, 23) && LegalField(fields[2], 1, 31)
    && LegalField(fields[3], 1, 12) && LegalField(fields[4], 0, 7)
  }

  ghost predicate MeansWeekday(terms: seq<Term>, d: Date)
    requires ValidDate(d)
  {
    Means(terms, 0, 7, Weekday(d)) || (Weekday(d) == 0 && Means(terms, 0, 7, 7))
  }

  /** What five fields mean, term by term. */
  ghost predicate FieldsMean(fields: seq<seq<Term>>, s: Stamp)
    requires |fields| == 5 && Valid(s)
  {
    var day, weekday := Means(fields[2], 1, 31, s.date.day), MeansWeekday(fields[4], s.date);
    && Means(fields[3], 1, 12, s.date.month)
    && (if fields[2] != [Any] && fields[4] != [Any] then day || weekday else day && weekday)
    && Means(fields[1], 0, 23, s.hour)
    && Means(fields[0], 0, 59, s.minute)
  }

  function WriteField(terms: seq<Term>): string {
    Join(RenderAll(terms), ',')
  }

  function Write(fields: seq<seq<Term>>): (written: seq<string>)
    ensures |written| == |fields| && forall i :: 0 <= i < |fields| ==> written[i] == WriteField(fields[i])
  {
    if fields == [] then [] else [WriteField(fields[0])] + Write(fields[1..])
  }

  lemma StarIsAny(t: Term)
    ensures Render(t) == "*" <==> t == Any
  {
    if t.Single? {
      DecimalReadsBack(t.value);
      assert Decimal(t.value)[0] in Decimal(t.value);
    }
  }

  /** The only way to write an unrestricted field is the star alone. */
  lemma StarFieldIsAny(terms: seq<Term>)
    requires terms != []
    ensures WriteField(terms) == "*" <==> terms == [Any]
  {
    StarIsAny(terms[0]);
    if |terms| > 1 {
      var rest := Join(RenderAll(terms)[1..], ',');
      TermIsPlain(terms[0]);
      assert WriteField(terms) == Render(terms[0]) + [','] + rest;
    }
  }

  ghost predicate ReadsAs(field: string, terms: seq<Term>, low: int, high: int) {
    && ValidField(field, low, high)
    && (forall v :: Names(field, low, high, v) <==> Means(terms, low, high, v))
    && (field == "*" <==> terms == [Any])
  }

  lemma FieldReads(terms: seq<Term>, low: int, high: int)
    requires LegalField(terms, low, high)
    ensures ReadsAs(WriteField(terms), terms, low, high)
  {
    FieldReadsBack(terms, low, high);
    StarFieldIsAny(terms);
  }

  lemma FieldsRead(fields: seq<seq<Term>>, text: seq<string>, s: Stamp)
    requires |fields| == 5 && |text| == 5 && Valid(s)
    requires ReadsAs(text[0], fields[0], 0, 59) && ReadsAs(text[1], fields[1], 0, 23)
    requires ReadsAs(text[2], fields[2], 1, 31) && ReadsAs(text[3], fields[3], 1, 12)
    requires ReadsAs(text[4], fields[4], 0, 7)
    ensures ValidText(text) && (TextMatches(text, s) <==> FieldsMean(fields, s))
  {
    assert NamesWeekday(text[4], s.date) <==> MeansWeekday(fields[4], s.date);
  }

  lemma WriteReads(fields: seq<seq<Term>>, s: Stamp)
    requires LegalFields(fields) && Valid(s)
    ensures ValidText(Write(fields)) && (TextMatches(Write(fields), s) <==> FieldsMean(fields, s))
  {
    var text := Write(fields);
    FieldReads(fields[0], 0, 59);
    FieldReads(fields[1], 0, 23);
    FieldReads(fields[2], 1, 31);
    FieldReads(fields[3], 1, 12);
    FieldReads(fields[4], 0, 7);
    FieldsRead(fields, text, s);
  }

  /** The text of a written expression. */
  function TextOf(fields: seq<seq<Term>>): string {
    Join(Write(fields), ' ')
  }

  lemma TextIsCut(fields: seq<seq<Term>>)
    requires forall i :: 0 <= i < |fields| ==> fields[i] != []
    ensures Words(TextOf(fields)) == Write(fields)
  {
    var text := Write(fields);
    ExpressionReadsBack(fields, text);
  }

  lemma NoFieldEmpty(fields: seq<seq<Term>>)
    requires LegalFields(fields)
    ensures forall i :: 0 <= i < |fields| ==> fields[i] != []
  {
    assert fields[0] != [] && fields[1] != [] && fields[2] != [] && fields[3] != [] && fields[4] != [];
  }

  /** The text of written fields is valid exactly when there are five and every term is legal: its step at
      least 1, its values in order and within minute 0-59, hour 0-23, day 1-31, month 1-12, weekday 0-7. */
  lemma ValidIffLegal(fields: seq<seq<Term>>)
    requires forall i :: 0 <= i < |fields| ==> fields[i] != []
    ensures ValidText(Words(TextOf(fields))) <==> LegalFields(fields)
  {
    TextIsCut(fields);
    if |fields| == 5 {
      FieldReadsBack(fields[0], 0, 59);
      FieldReadsBack(fields[1], 0, 23);
      FieldReadsBack(fields[2], 1, 31);
      FieldReadsBack(fields[3], 1, 12);
      FieldReadsBack(fields[4], 0, 7);
    }
  }

  /** A written expression is read as what it means: its text is valid, and matches a minute exactly
      when the fields do. */
  lemma WrittenIsRead(fields: seq<seq<Term>>, s: Stamp)
    requires LegalFields(fields) && Valid(s)
    ensures ValidText(Words(TextOf(fields))) && (TextMatches(Words(TextOf(fields)), s) <==> FieldsMean(fields, s))
  {
    NoFieldEmpty(fields);
    TextIsCut(fields);
    WriteReads(fields, s);
  }

  /** `at` is the least minute after `after` that the fields mean. */
  ghost predicate FirstMeant(fields: seq<seq<Term>>, after: Stamp, at: Stamp)
    requires |fields| == 5
  {
    && Valid(at) && Before(after, at) && FieldsMean(fields, at)
    && forall u :: Valid(u) && Before(after, u) && FieldsMean(fields, u) ==> u == at || Before(at, u)
  }

  /** From text to minute: the first match of a written expression is the first minute its fields
      mean. */
  lemma WrittenFires(fields: seq<seq<Term>>, after: Stamp, at: Stamp)
    requires LegalFields(fields) && Valid(after) && Valid(at)
    ensures |Words(TextOf(fields))| == 5
    ensures FirstMatch(Words(TextOf(fields)), after, at) <==> FirstMeant(fields, after, at)
  {
    NoFieldEmpty(fields);
    TextIsCut(fields);
    forall u | Valid(u)
      ensures TextMatches(Write(fields), u) <==> FieldsMean(fields, u)
    {
      WriteReads(fields, u);
    }
  }
}
