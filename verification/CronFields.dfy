/** Parsing of a five-field cron expression. */
module CronFields {
  import opened Options
  import opened Cron
  import opened Strings

  // ---------------------------------------------------------------- int(text)

  predicate IsDigit(c: char) {
    '0' <= c <= '9'
  }

  /** The value of an ASCII digit string, single underscores between digits allowed. */
  function Digits(text: string): (value: Option<nat>)
    decreases |text|
  {
    var n := |text|;
    if n == 0 || !IsDigit(text[n - 1]) then None
    else
      var digit := (text[n - 1] - '0') as nat;
      if n == 1 then Some(digit)
      else
        match Digits(if text[n - 2] == '_' then text[..n - 2] else text[..n - 1])
        case Some(high) => Some(10 * high + digit)
        case None => None
  }

  /** `int(text)`; `None` is `ValueError`. */
  function Int(text: string): Option<int> {
    if text != "" && (text[0] == '+' || text[0] == '-') then
      match Digits(text[1..])
      case Some(v) => Some(if text[0] == '-' then 0 - v else v as int)
      case None => None
    else
      match Digits(text)
      case Some(v) => Some(v as int)
      case None => None
  }

  // ---------------------------------------------------------------- one field

  /** `range(first, last + 1, step)` */
  datatype Stride = Stride(first: int, last: int, step: int)

  /** Membership in a `range`: the first value, or a value of the rest. */
  predicate InRange(v: int, first: int, last: int, step: int)
    decreases last - first
  {
    step >= 1 && first <= last && (v == first || InRange(v, first + step, last, step))
  }

  predicate InStride(v: int, s: Stride) {
    InRange(v, s.first, s.last, s.step)
  }

  function BodyStride(body: string, stepText: string, step: int, low: int, high: int): Option<Stride> {
    if body == "*" then Some(Stride(low, high, step))
    else if '-' in body then
      var (firstText, lastText) := Partition(body, '-');
      match (Int(firstText), Int(lastText))
      case (Some(first), Some(last)) => Some(Stride(first, last, step))
      case _ => None
    else
      match Int(body)
      case Some(first) => Some(Stride(first, if stepText != "" then high else first, step))
      case None => None
  }

  /** One comma-separated part; `None` is `ValueError`. */
  function PartStride(part: string, low: int, high: int): Option<Stride> {
    var (body, stepText) := Partition(part, '/');
    match if stepText != "" then Int(stepText) else Some(1)
    case None => None
    case Some(step) =>
      if step < 1 then None
      else
        match BodyStride(body, stepText, step, low, high)
        case Some(s) => if low <= s.first <= s.last <= high then Some(s) else None
        case None => None
  }

  /** `v` is named by one of the parts. */
  ghost predicate Named(parts: seq<string>, low: int, high: int, v: int) {
    exists i :: 0 <= i < |parts| && PartStride(parts[i], low, high).Some?
                && InStride(v, PartStride(parts[i], low, high).value)
  }

  predicate AllPartsValid(parts: seq<string>, low: int, high: int) {
    forall i :: 0 <= i < |parts| ==> PartStride(parts[i], low, high).Some?
  }

  /** `v` is named by `field` as the parser reads it within `low..high`. */
  ghost predicate Names(field: string, low: int, high: int, v: int) {
    Named(Split(field, ','), low, high, v)
  }

  predicate ValidField(field: string, low: int, high: int) {
    AllPartsValid(Split(field, ','), low, high)
  }

  ghost predicate ExactlyNamed(values: set<int>, field: string, low: int, high: int) {
    forall v :: v in values <==> Names(field, low, high, v)
  }

  lemma {:induction false} RangeBounds(v: int, first: int, last: int, step: int)
    requires InRange(v, first, last, step)
    ensures first <= v <= last
    decreases last - first
  {
    if v != first {
      RangeBounds(v, first + step, last, step);
    }
  }

  lemma {:induction false} MultipleAtLeast(step: int, k: int)
    requires step >= 1 && k >= 1
    ensures step * k >= step
  {
    if k > 1 {
      MultipleAtLeast(step, k - 1);
      assert step * k == step * (k - 1) + step;
    }
  }

  lemma QuotientUnique(q: int, r: int, p: int, u: int, step: int)
    requires 0 <= r < step && 0 <= u < step && step * q + r == step * p + u
    ensures q == p && r == u
  {
    if q > p {
      MultipleAtLeast(step, q - p);
    } else if q < p {
      MultipleAtLeast(step, p - q);
    }
  }

  lemma ModDropsOneStep(x: int, step: int)
    requires step >= 1
    ensures x % step == (x - step) % step
  {
    var q, p := x / step, (x - step) / step;
    assert x - step == step * (q - 1) + x % step;
    QuotientUnique(q - 1, x % step, p, (x - step) % step, step);
  }

  lemma SmallMod(x: int, step: int)
    requires 0 <= x < step
    ensures x % step == x
  {
  }

  /** The closed form of a stride: every `step`-th value from `first` up to `last`. */
  lemma {:induction false} RangeIsModular(v: int, first: int, last: int, step: int)
    requires step >= 1
    ensures InRange(v, first, last, step) <==> first <= v <= last && (v - first) % step == 0
    decreases last - first
  {
    SmallMod(0, step);
    if first <= last && v != first {
      RangeIsModular(v, first + step, last, step);
      ModDropsOneStep(v - first, step);
      assert v - (first + step) == v - first - step;
      if first < v < first + step {
        SmallMod(v - first, step);
      }
    }
  }

  method StrideValues(s: Stride) returns (values: set<int>)
    requires s.step >= 1
    ensures forall v :: v in values <==> InStride(v, s)
  {
    values := {};
    var next := s.first;
    while next <= s.last
      invariant forall v :: InStride(v, s) <==> v in values || InRange(v, next, s.last, s.step)
      invariant forall v :: v in values ==> InStride(v, s)
      decreases s.last - next
    {
      values := values + {next};
      next := next + s.step;
    }
  }

  lemma NamedByOneMore(parts: seq<string>, i: nat, low: int, high: int, v: int)
    requires i < |parts| && PartStride(parts[i], low, high).Some?
    ensures Named(parts[..i + 1], low, high, v) <==>
            Named(parts[..i], low, high, v) || InStride(v, PartStride(parts[i], low, high).value)
  {
    var longer, shorter := parts[..i + 1], parts[..i];
    assert longer[i] == parts[i];
    assert forall j :: 0 <= j < i ==> longer[j] == shorter[j];
  }

  /** One loop step of `ParseField`. */
  lemma PartAdded(parts: seq<string>, i: nat, low: int, high: int, values: set<int>, more: set<int>)
    requires i < |parts| && AllPartsValid(parts[..i], low, high) && PartStride(parts[i], low, high).Some?
    requires forall v :: v in values <==> Named(parts[..i], low, high, v)
    requires forall v :: v in more <==> InStride(v, PartStride(parts[i], low, high).value)
    ensures AllPartsValid(parts[..i + 1], low, high)
    ensures forall v :: v in values + more <==> Named(parts[..i + 1], low, high, v)
    ensures values + more != {}
  {
    forall v
      ensures v in values + more <==> Named(parts[..i + 1], low, high, v)
    {
      NamedByOneMore(parts, i, low, high, v);
    }
    var longer := parts[..i + 1];
    forall j | 0 <= j < |longer|
      ensures PartStride(longer[j], low, high).Some?
    {
      assert j < i ==> parts[..i][j] == parts[j];
    }
    var s := PartStride(parts[i], low, high).value;
    assert InStride(s.first, s) && s.first in values + more;
  }

  lemma NamedInBounds(parts: seq<string>, low: int, high: int, v: int)
    requires Named(parts, low, high, v)
    ensures low <= v <= high
  {
    var i :| 0 <= i < |parts| && PartStride(parts[i], low, high).Some?
             && InStride(v, PartStride(parts[i], low, high).value);
    var s := PartStride(parts[i], low, high).value;
    RangeBounds(v, s.first, s.last, s.step);
  }

  /** The values a field matches: exactly those its parts name, and an error iff a part is bad. */
  method ParseField(field: string, low: int, high: int) returns (result: Option<set<int>>)
    ensures result.Some? <==> ValidField(field, low, high)
    ensures result.Some? ==> ExactlyNamed(result.value, field, low, high) && result.value != {}
  {
    var values: set<int> := {};
    var parts := Split(field, ',');
    var i := 0;
    while i < |parts|
      invariant 0 <= i <= |parts|
      invariant AllPartsValid(parts[..i], low, high)
      invariant forall v :: v in values <==> Named(parts[..i], low, high, v)
      invariant i > 0 ==> values != {}
    {
      var stride := PartStride(parts[i], low, high);
      if stride.None? {
        return None;
      }
      var more := StrideValues(stride.value);
      PartAdded(parts, i, low, high, values, more);
      values := values + more;
      i := i + 1;
    }
    assert parts[..i] == parts;
    result := Some(values);
  }

  // ---------------------------------------------------------------- the whole expression

  /** `text.split()`: the maximal runs of non-blank characters. */
  function Words(text: string): seq<string>
    decreases |text|
  {
    if text == "" then []
    else if IsSpace(text[0]) then Words(text[1..])
    else
      var rest := Words(text[1..]);
      if |text| > 1 && !IsSpace(text[1]) && rest != []
      then [[text[0]] + rest[0]] + rest[1..]
      else [[text[0]]] + rest
  }

  ghost predicate FoldedWeekdays(folded: set<int>, field: string) {
    forall v :: v in folded <==> 0 <= v < 7 && (Names(field, 0, 7, v) || (v == 0 && Names(field, 0, 7, 7)))
  }

  /** Parses `minute hour day-of-month month day-of-week`, folding Sunday 7 to 0. */
  method Parse(cron: string) returns (result: Option<Expression>)
    ensures var f := Words(cron);
            result.Some? <==> |f| == 5 && ValidField(f[0], 0, 59) && ValidField(f[1], 0, 23)
                              && ValidField(f[2], 1, 31) && ValidField(f[3], 1, 12) && ValidField(f[4], 0, 7)
    ensures result.Some? ==> WellFormed(result.value)
    ensures result.Some? ==>
              var f, e := Words(cron), result.value;
              && ExactlyNamed(e.minutes, f[0], 0, 59) && ExactlyNamed(e.hours, f[1], 0, 23)
              && ExactlyNamed(e.days, f[2], 1, 31) && ExactlyNamed(e.months, f[3], 1, 12)
              && FoldedWeekdays(e.weekdays, f[4])
              && e.dayRestricted == (f[2] != "*") && e.weekdayRestricted == (f[4] != "*")
  {
    var fields := Words(cron);
    if |fields| != 5 {
      return None;
    }
    var minutes := ParseField(fields[0], 0, 59);
    var hours := ParseField(fields[1], 0, 23);
    var days := ParseField(fields[2], 1, 31);
    var months := ParseField(fields[3], 1, 12);
    var weekdays := ParseField(fields[4], 0, 7);
    if minutes.None? || hours.None? || days.None? || months.None? || weekdays.None? {
      return None;
    }
    var folded := set v | v in weekdays.value :: v % 7;
    FieldInBounds(minutes.value, fields[0], 0, 59);
    FieldInBounds(hours.value, fields[1], 0, 23);
    FieldInBounds(days.value, fields[2], 1, 31);
    FieldInBounds(months.value, fields[3], 1, 12);
    FoldWeekdays(weekdays.value, folded, fields[4]);
    result := Some(Expression(minutes.value, hours.value, days.value, months.value, folded,
                              fields[2] != "*", fields[4] != "*"));
  }

  lemma FieldInBounds(values: set<int>, field: string, low: int, high: int)
    requires ExactlyNamed(values, field, low, high) && low <= high
    ensures forall v :: v in values ==> low <= v <= high
    ensures field == "*" ==> forall v :: low <= v <= high ==> v in values
  {
    forall v | v in values
      ensures low <= v <= high
    {
      NamedInBounds(Split(field, ','), low, high, v);
    }
    if field == "*" {
      StarNamesAll(low, high);
    }
  }

  lemma Fold(v: int)
    requires 0 <= v <= 7
    ensures v % 7 == if v == 7 then 0 else v
  {
  }

  lemma FoldedMembers(values: set<int>, v: int)
    requires forall w :: w in values ==> 0 <= w <= 7
    ensures v in (set w | w in values :: w % 7) <==> 0 <= v < 7 && (v in values || (v == 0 && 7 in values))
  {
    forall w | w in values
      ensures w % 7 == if w == 7 then 0 else w
    {
      Fold(w);
    }
  }

  lemma FoldWeekdays(values: set<int>, folded: set<int>, field: string)
    requires ExactlyNamed(values, field, 0, 7) && values != {}
    requires folded == set v | v in values :: v % 7
    ensures FoldedWeekdays(folded, field) && folded != {}
    ensures forall v :: v in folded ==> 0 <= v < 7
    ensures field == "*" ==> forall v :: 0 <= v < 7 ==> v in folded
  {
    FieldInBounds(values, field, 0, 7);
    forall v
      ensures v in folded <==> 0 <= v < 7 && (v in values || (v == 0 && 7 in values))
    {
      FoldedMembers(values, v);
    }
    var some := Element(values);
    assert (if some == 7 then 0 else some) in folded;
  }

  lemma {:induction false} UnitRangeIsInterval(v: int, first: int, last: int)
    ensures InRange(v, first, last, 1) <==> first <= v <= last
    decreases last - first
  {
    if first <= last {
      UnitRangeIsInterval(v, first + 1, last);
    }
  }

  lemma StarNamesAll(low: int, high: int)
    requires low <= high
    ensures forall v :: low <= v <= high ==> Names("*", low, high, v)
  {
    SplitSkipsOther("*", "", ',');
    PartitionAt("*", "", '/');
    assert PartStride("*", low, high) == Some(Stride(low, high, 1));
    forall v | low <= v <= high
      ensures Names("*", low, high, v)
    {
      UnitRangeIsInterval(v, low, high);
      assert Split("*", ',')[0] == "*";
    }
  }

  // ---------------------------------------------------------------- writing what parses back

  /** A part as its author means it. */
  datatype Term =
    | Any
    | Every(step: nat)
    | Single(value: nat)
    | From(first: nat, step: nat)
    | Interval(first: nat, last: nat)
    | Span(first: nat, last: nat, step: nat)

  function Decimal(n: nat): string {
    if n < 10 then ['0' + n as char] else Decimal(n / 10) + ['0' + (n % 10) as char]
  }

  function Render(t: Term): string {
    match t
    case Any => "*"
    case Every(step) => "*/" + Decimal(step)
    case Single(v) => Decimal(v)
    case From(first, step) => Decimal(first) + "/" + Decimal(step)
    case Interval(first, last) => Decimal(first) + "-" + Decimal(last)
    case Span(first, last, step) => Decimal(first) + "-" + Decimal(last) + "/" + Decimal(step)
  }

  function Meaning(t: Term, low: int, high: int): Stride {
    match t
    case Any => Stride(low, high, 1)
    case Every(step) => Stride(low, high, step)
    case Single(v) => Stride(v, v, 1)
    case From(first, step) => Stride(first, high, step)
    case Interval(first, last) => Stride(first, last, 1)
    case Span(first, last, step) => Stride(first, last, step)
  }

  predicate Legal(t: Term, low: int, high: int) {
    var m := Meaning(t, low, high);
    m.step >= 1 && low <= m.first <= m.last <= high
  }

  lemma {:induction false} DecimalReadsBack(n: nat)
    ensures Decimal(n) != "" && (forall c :: c in Decimal(n) ==> IsDigit(c))
    ensures Digits(Decimal(n)) == Some(n) && Int(Decimal(n)) == Some(n)
  {
    if n >= 10 {
      DecimalReadsBack(n / 10);
      var text := Decimal(n);
      assert text[..|text| - 1] == Decimal(n / 10);
      assert text[|text| - 2] in Decimal(n / 10);
      assert text[0] in Decimal(n / 10);
    }
  }

  lemma SteppedPart(body: string, step: nat, low: int, high: int)
    requires '/' !in body
    ensures var s := BodyStride(body, Decimal(step), step, low, high);
            PartStride(body + "/" + Decimal(step), low, high) ==
            if step >= 1 && s.Some? && low <= s.value.first <= s.value.last <= high then s else None
  {
    DecimalReadsBack(step);
    PartitionAt(body, Decimal(step), '/');
  }

  lemma SpanReadsBack(first: nat, last: nat, stepText: string, step: nat, low: int, high: int)
    ensures BodyStride(Decimal(first) + "-" + Decimal(last), stepText, step, low, high)
            == Some(Stride(first, last, step))
    ensures '/' !in Decimal(first) + "-" + Decimal(last)
  {
    DecimalReadsBack(first);
    DecimalReadsBack(last);
    var body := Decimal(first) + "-" + Decimal(last);
    PartitionAt(Decimal(first), Decimal(last), '-');
    assert body[|Decimal(first)|] == '-';
    assert |body| >= 2;
  }

  lemma NumberBody(n: nat, stepText: string, step: nat, low: int, high: int)
    ensures BodyStride(Decimal(n), stepText, step, low, high) ==
            Some(Stride(n, if stepText != "" then high else n, step))
    ensures '/' !in Decimal(n)
  {
    DecimalReadsBack(n);
    assert Decimal(n)[0] in Decimal(n);
  }

  /** A part as written is read as what it means when it is legal, and is an error otherwise. */
  lemma TermReadsBack(t: Term, low: int, high: int)
    ensures PartStride(Render(t), low, high) == if Legal(t, low, high) then Some(Meaning(t, low, high)) else None
  {
    match t
    case Any =>
      PartitionAt("*", "", '/');
    case Every(step) =>
      SteppedPart("*", step, low, high);
      assert "*" + "/" + Decimal(step) == Render(t);
    case Single(v) =>
      NumberBody(v, "", 1, low, high);
      PartitionAt(Decimal(v), "", '/');
    case From(first, step) =>
      DecimalReadsBack(step);
      NumberBody(first, Decimal(step), step, low, high);
      SteppedPart(Decimal(first), step, low, high);
    case Interval(first, last) =>
      SpanReadsBack(first, last, "", 1, low, high);
      PartitionAt(Decimal(first) + "-" + Decimal(last), "", '/');
    case Span(first, last, step) =>
      SpanReadsBack(first, last, Decimal(step), step, low, high);
      SteppedPart(Decimal(first) + "-" + Decimal(last), step, low, high);
  }

  predicate Plain(text: string) {
    forall c :: c in text ==> IsDigit(c) || c == '*' || c == '/' || c == '-'
  }

  lemma TermIsPlain(t: Term)
    ensures Render(t) != "" && Plain(Render(t))
  {
    match t
    case Any =>
    case Every(step) => DecimalReadsBack(step);
    case Single(v) => DecimalReadsBack(v);
    case From(first, step) =>
      DecimalReadsBack(first);
      DecimalReadsBack(step);
    case Interval(first, last) =>
      DecimalReadsBack(first);
      DecimalReadsBack(last);
    case Span(first, last, step) =>
      DecimalReadsBack(first);
      DecimalReadsBack(last);
      DecimalReadsBack(step);
  }

  lemma NoCommaInTerm(t: Term)
    ensures ',' !in Render(t)
  {
    TermIsPlain(t);
  }

  function RenderAll(terms: seq<Term>): (parts: seq<string>)
    ensures |parts| == |terms| && forall i :: 0 <= i < |terms| ==> parts[i] == Render(terms[i])
  {
    if terms == [] then [] else [Render(terms[0])] + RenderAll(terms[1..])
  }

  /** Any list of terms, written out with commas, is valid exactly when all are legal, and then parses to
      exactly the values it means. */
  lemma FieldReadsBack(terms: seq<Term>, low: int, high: int)
    requires terms != []
    ensures var field := Join(RenderAll(terms), ',');
            && (ValidField(field, low, high) <==> forall i :: 0 <= i < |terms| ==> Legal(terms[i], low, high))
            && (ValidField(field, low, high) ==>
                  forall v :: Names(field, low, high, v) <==>
                              exists i :: 0 <= i < |terms| && InStride(v, Meaning(terms[i], low, high)))
  {
    var written := RenderAll(terms);
    forall i | 0 <= i < |terms|
      ensures PartStride(written[i], low, high) ==
              if Legal(terms[i], low, high) then Some(Meaning(terms[i], low, high)) else None
      ensures ',' !in written[i]
    {
      TermReadsBack(terms[i], low, high);
      NoCommaInTerm(terms[i]);
    }
    SplitOfJoin(written, ',');
  }

  predicate IsWord(text: string) {
    text != "" && forall c :: c in text ==> !IsSpace(c)
  }

  /** A blank anywhere separates: the words of the two sides, in order. */
  lemma {:induction false} BlankSeparates(head: string, blank: char, tail: string)
    requires IsSpace(blank)
    ensures Words(head + [blank] + tail) == Words(head) + Words(tail)
    decreases |head|
  {
    var text := head + [blank] + tail;
    if head == "" {
      assert text[1..] == tail;
    } else {
      assert text[1..] == head[1..] + [blank] + tail;
      BlankSeparates(head[1..], blank, tail);
      if |head| > 1 && !IsSpace(head[1]) {
        assert Words(head[1..]) != [];
      }
    }
  }

  lemma {:induction false} WordIsOneWord(word: string)
    requires IsWord(word)
    ensures Words(word) == [word]
  {
    assert !IsSpace(word[0]) && word == [word[0]] + word[1..];
    if |word| > 1 {
      assert !IsSpace(word[1]);
      WordIsOneWord(word[1..]);
    } else {
      assert word == [word[0]];
    }
  }

  lemma {:induction false} WordsReadBack(words: seq<string>)
    requires forall i :: 0 <= i < |words| ==> IsWord(words[i])
    ensures Words(Join(words, ' ')) == words
  {
    if words != [] {
      WordIsOneWord(words[0]);
      if |words| > 1 {
        WordsReadBack(words[1..]);
        BlankSeparates(words[0], ' ', Join(words[1..], ' '));
      }
    }
  }

  lemma {:induction false} FieldIsWord(terms: seq<Term>)
    requires terms != []
    ensures IsWord(Join(RenderAll(terms), ','))
  {
    TermIsPlain(terms[0]);
    assert RenderAll(terms)[1..] == RenderAll(terms[1..]);
    if |terms| > 1 {
      FieldIsWord(terms[1..]);
    }
  }

  /** A whole expression written out is cut back into its five fields. */
  lemma ExpressionReadsBack(fields: seq<seq<Term>>, written: seq<string>)
    requires |fields| == |written| && forall i :: 0 <= i < |fields| ==>
               fields[i] != [] && written[i] == Join(RenderAll(fields[i]), ',')
    ensures Words(Join(written, ' ')) == written
  {
    forall i | 0 <= i < |written|
      ensures IsWord(written[i])
    {
      FieldIsWord(fields[i]);
    }
    WordsReadBack(written);
  }

  // ---------------------------------------------------------------- what a number may look like

  lemma {:induction false} DigitsOnly(text: string)
    requires Digits(text).Some?
    ensures text != "" && IsDigit(text[0]) && IsDigit(text[|text| - 1])
    ensures forall c :: c in text ==> IsDigit(c) || c == '_'
    decreases |text|
  {
    var n := |text|;
    if n > 1 {
      var front := if text[n - 2] == '_' then text[..n - 2] else text[..n - 1];
      DigitsOnly(front);
      forall c | c in text
        ensures IsDigit(c) || c == '_'
      {
        var i :| 0 <= i < n && text[i] == c;
        assert i < |front| ==> text[i] == front[i] && front[i] in front;
      }
    }
  }

  /** A number is digits, underscores between them, and one sign before them; nothing else is. */
  lemma IntOnly(text: string)
    requires Int(text).Some?
    ensures text != "" && '0' <= text[|text| - 1] <= '9'
    ensures '0' <= text[0] <= '9' || (|text| > 1 && (text[0] == '+' || text[0] == '-') && '0' <= text[1] <= '9')
    ensures forall i :: 0 < i < |text| ==> '0' <= text[i] <= '9' || text[i] == '_'
  {
    if text[0] == '+' || text[0] == '-' {
      DigitsOnly(text[1..]);
      forall i | 0 < i < |text|
        ensures '0' <= text[i] <= '9' || text[i] == '_'
      {
        assert text[i] == text[1..][i - 1] && text[1..][i - 1] in text[1..];
      }
    } else {
      DigitsOnly(text);
      forall i | 0 < i < |text|
        ensures '0' <= text[i] <= '9' || text[i] == '_'
      {
        assert text[i] in text;
      }
    }
  }

  /** Signs count, an underscore between digits does not. */
  lemma SignsRead(n: nat, digit: nat)
    requires digit < 10
    ensures Int("+" + Decimal(n)) == Some(n) && Int("-" + Decimal(n)) == Some(0 - n)
    ensures Int(Decimal(n) + "_" + Decimal(digit)) == Some(10 * n + digit)
  {
    DecimalReadsBack(n);
    assert ("+" + Decimal(n))[1..] == Decimal(n) && ("-" + Decimal(n))[1..] == Decimal(n);
    var text := Decimal(n) + "_" + Decimal(digit);
    assert |Decimal(digit)| == 1 && text[..|text| - 2] == Decimal(n) && text[|text| - 2] == '_';
    assert text[0] == Decimal(n)[0] && Decimal(n)[0] in Decimal(n);
  }
}
