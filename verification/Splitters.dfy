/** The two splitters at top-level commas: a CSS value's terms and the entries of an argument object. */
module Splitters {
  import opened Options
  import opened Strings

  /** Which characters nest and which quote. */
  datatype Grammar = Grammar(openers: string, closers: string, quotes: string)

  const CSS_VALUE: Grammar := Grammar("(", ")", "")
  const ARGUMENT_OBJECT: Grammar := Grammar("([{", ")]}", "\"'`")

  /** Where a scan stands: bracket depth (it may go negative), the open quote, a pending escape. */
  datatype Scan = Scan(depth: int, quote: Option<char>, escaped: bool)

  const START: Scan := Scan(0, None, false)

  function Next(g: Grammar, s: Scan, c: char): Scan {
    if s.quote.Some? then
      if s.escaped then s.(escaped := false)
      else if c == '\\' then s.(escaped := true)
      else if c == s.quote.value then s.(quote := None)
      else s
    else if c in g.quotes then s.(quote := Some(c))
    else if c in g.openers then s.(depth := s.depth + 1)
    else if c in g.closers then s.(depth := s.depth - 1)
    else s
  }

  /** `c` read at `s` is a separating comma. */
  predicate Separates(g: Grammar, s: Scan, c: char) {
    c == ',' && s.quote.None? && s.depth == 0
  }

  /** The comma neither nests nor quotes. */
  predicate Sane(g: Grammar) {
    ',' !in g.quotes && ',' !in g.openers && ',' !in g.closers
  }

  /** An escape is only pending inside a quote. */
  predicate Coherent(s: Scan) {
    s.quote.None? ==> !s.escaped
  }

  /** The pieces of `text` when its scan starts from `s`. */
  function Pieces(g: Grammar, text: string, s: Scan): (pieces: seq<string>)
    ensures |pieces| > 0
    decreases |text|
  {
    if text == "" then [""]
    else if Separates(g, s, text[0]) then [""] + Pieces(g, text[1..], s)
    else
      var rest := Pieces(g, text[1..], Next(g, s, text[0]));
      [[text[0]] + rest[0]] + rest[1..]
  }

  /** Scanning `text` from `s` meets no separating comma. */
  predicate CommaFree(g: Grammar, text: string, s: Scan)
    decreases |text|
  {
    text == "" || (!Separates(g, s, text[0]) && CommaFree(g, text[1..], Next(g, s, text[0])))
  }

  function ScanThrough(g: Grammar, text: string, s: Scan): Scan
    decreases |text|
  {
    if text == "" then s else ScanThrough(g, text[1..], Next(g, s, text[0]))
  }

  /** No separating comma inside, and every bracket and quote closed again. */
  predicate Closed(g: Grammar, text: string) {
    CommaFree(g, text, START) && ScanThrough(g, text, START) == START
  }

  // ---------------------------------------------------------------- the laws

  /** Nothing is lost: joining the pieces with commas gives the text back. */
  lemma {:induction false} JoinOfPieces(g: Grammar, text: string, s: Scan)
    ensures Join(Pieces(g, text, s), ',') == text
    decreases |text|
  {
    if text != "" {
      if Separates(g, s, text[0]) {
        JoinOfPieces(g, text[1..], s);
        var rest := Pieces(g, text[1..], s);
        assert ([""] + rest)[1..] == rest;
        assert "" + [','] + text[1..] == text;
      } else {
        var s' := Next(g, s, text[0]);
        JoinOfPieces(g, text[1..], s');
        JoinGrowsFirst(Pieces(g, text[1..], s'), text[0], ',');
        assert [text[0]] + text[1..] == text;
      }
    }
  }

  lemma JoinGrowsFirst(parts: seq<string>, c: char, sep: char)
    requires parts != []
    ensures Join([[c] + parts[0]] + parts[1..], sep) == [c] + Join(parts, sep)
  {
    var grown := [[c] + parts[0]] + parts[1..];
    assert grown[1..] == parts[1..];
    if |parts| > 1 {
      assert ([c] + parts[0]) + [sep] + Join(parts[1..], sep) == [c] + (parts[0] + [sep] + Join(parts[1..], sep));
    }
  }

  lemma {:induction false} PiecesOfClosed(g: Grammar, head: string, tail: string, s: Scan)
    requires CommaFree(g, head, s)
    ensures Pieces(g, head, s) == [head]
    ensures Separates(g, ScanThrough(g, head, s), ',') ==>
              Pieces(g, head + [','] + tail, s) == [head] + Pieces(g, tail, ScanThrough(g, head, s))
    decreases |head|
  {
    if head == "" {
      assert (head + [','] + tail)[1..] == tail;
    } else {
      assert (head + [','] + tail)[1..] == head[1..] + [','] + tail;
      PiecesOfClosed(g, head[1..], tail, Next(g, s, head[0]));
      assert [head[0]] + head[1..] == head;
    }
  }

  /** `parts` is a cut at top-level commas: every part is closed, but the last one may leave brackets
      or a quote open. */
  ghost predicate IsCut(g: Grammar, parts: seq<string>) {
    && parts != [] && CommaFree(g, parts[|parts| - 1], START)
    && forall i :: 0 <= i < |parts| - 1 ==> Closed(g, parts[i])
  }

  /** Splitting inverts joining on every such cut, so the cut of a text is unique. */
  lemma {:induction false} PiecesOfJoin(g: Grammar, parts: seq<string>)
    requires IsCut(g, parts)
    ensures Pieces(g, Join(parts, ','), START) == parts
  {
    if |parts| == 1 {
      PiecesOfClosed(g, parts[0], "", START);
    } else {
      assert forall i :: 0 <= i < |parts[1..]| ==> parts[1..][i] == parts[i + 1];
      PiecesOfJoin(g, parts[1..]);
      assert Closed(g, parts[0]);
      PiecesOfClosed(g, parts[0], Join(parts[1..], ','), START);
    }
  }

  lemma {:induction false} PiecesAreCutFrom(g: Grammar, text: string, s: Scan)
    requires Sane(g) && Coherent(s)
    ensures var pieces := Pieces(g, text, s);
            && CommaFree(g, pieces[0], s)
            && (|pieces| > 1 ==> ScanThrough(g, pieces[0], s) == START && IsCut(g, pieces[1..]))
    decreases |text|
  {
    if text != "" {
      if Separates(g, s, text[0]) {
        PiecesAreCutFrom(g, text[1..], s);
        CutGrows(g, Pieces(g, text[1..], s));
      } else {
        PiecesAreCutFrom(g, text[1..], Next(g, s, text[0]));
      }
    }
  }

  lemma CutGrows(g: Grammar, pieces: seq<string>)
    requires |pieces| > 0 && CommaFree(g, pieces[0], START)
    requires |pieces| > 1 ==> ScanThrough(g, pieces[0], START) == START && IsCut(g, pieces[1..])
    ensures IsCut(g, pieces)
  {
    if |pieces| > 1 {
      forall i | 0 <= i < |pieces| - 1
        ensures Closed(g, pieces[i])
      {
        assert i > 0 ==> pieces[1..][i - 1] == pieces[i];
      }
    }
  }

  /** The pieces of any text are such a cut: with `JoinOfPieces` and `PiecesOfJoin`, the split is the
      one and only cut whose join is the text. */
  lemma PiecesAreCut(g: Grammar, text: string)
    requires Sane(g)
    ensures IsCut(g, Pieces(g, text, START))
    ensures forall parts :: IsCut(g, parts) && Join(parts, ',') == text ==> parts == Pieces(g, text, START)
  {
    PiecesAreCutFrom(g, text, START);
    CutGrows(g, Pieces(g, text, START));
    forall parts | IsCut(g, parts) && Join(parts, ',') == text
      ensures parts == Pieces(g, text, START)
    {
      PiecesOfJoin(g, parts);
    }
  }

  /** Of both grammars, for every text. */
  lemma BothSplittersCut(text: string)
    ensures IsCut(CSS_VALUE, Pieces(CSS_VALUE, text, START))
    ensures IsCut(ARGUMENT_OBJECT, Pieces(ARGUMENT_OBJECT, text, START))
  {
    PiecesAreCut(CSS_VALUE, text);
    PiecesAreCut(ARGUMENT_OBJECT, text);
  }

  // ---------------------------------------------------------------- the two loops

  /** What a scan has left to produce: the finished segments, the open one, and the rest. */
  function Resume(g: Grammar, done: seq<string>, current: string, rest: string, s: Scan): seq<string> {
    var pieces := Pieces(g, rest, s);
    done + [current + pieces[0]] + pieces[1..]
  }

  lemma ResumeStep(g: Grammar, done: seq<string>, current: string, rest: string, s: Scan)
    requires rest != ""
    ensures Separates(g, s, rest[0]) ==>
              Resume(g, done, current, rest, s) == Resume(g, done + [current], "", rest[1..], s)
    ensures !Separates(g, s, rest[0]) ==>
              Resume(g, done, current, rest, s) == Resume(g, done, current + [rest[0]], rest[1..], Next(g, s, rest[0]))
  {
    var pieces := Pieces(g, rest[1..], if Separates(g, s, rest[0]) then s else Next(g, s, rest[0]));
    if Separates(g, s, rest[0]) {
      assert [""] + pieces == Pieces(g, rest, s);
      assert current + "" == current && "" + pieces[0] == pieces[0];
      assert [pieces[0]] + pieces[1..] == pieces;
      assert done + [current] + pieces == done + [current] + ([pieces[0]] + pieces[1..]);
    } else {
      assert (current + [rest[0]]) + pieces[0] == current + ([rest[0]] + pieces[0]);
    }
  }

  lemma ResumeEnd(g: Grammar, done: seq<string>, current: string, s: Scan)
    ensures Resume(g, done, current, "", s) == done + [current]
  {
    assert current + "" == current;
  }

  lemma ResumeStart(g: Grammar, text: string, s: Scan)
    ensures Resume(g, [], "", text, s) == Pieces(g, text, s)
  {
    var pieces := Pieces(g, text, s);
    assert "" + pieces[0] == pieces[0] && [pieces[0]] + pieces[1..] == pieces;
  }

  /** `comma_segments` */
  method CommaSegments(value: string) returns (segments: seq<string>)
    ensures segments == Pieces(CSS_VALUE, value, START)
  {
    segments := [];
    var current := "";
    var depth := 0;
    var i := 0;
    ResumeStart(CSS_VALUE, value, START);
    while i < |value|
      invariant 0 <= i <= |value|
      invariant Resume(CSS_VALUE, segments, current, value[i..], Scan(depth, None, false))
                == Pieces(CSS_VALUE, value, START)
    {
      var character := value[i];
      ResumeStep(CSS_VALUE, segments, current, value[i..], Scan(depth, None, false));
      assert value[i..][1..] == value[i + 1..];
      if character == '(' {
        depth := depth + 1;
      } else if character == ')' {
        depth := depth - 1;
      }
      if character == ',' && depth == 0 {
        segments := segments + [current];
        current := "";
      } else {
        current := current + [character];
      }
      i := i + 1;
    }
    ResumeEnd(CSS_VALUE, segments, current, Scan(depth, None, false));
    segments := segments + [current];
  }

  /** `top_level_entries` */
  method TopLevelEntries(args: string) returns (entries: seq<string>)
    ensures entries == Pieces(ARGUMENT_OBJECT, args, START)
  {
    entries := [];
    var current := "";
    var depth, quote, escaped := 0, None, false;
    var i := 0;
    ResumeStart(ARGUMENT_OBJECT, args, START);
    while i < |args|
      invariant 0 <= i <= |args|
      invariant Coherent(Scan(depth, quote, escaped))
      invariant Resume(ARGUMENT_OBJECT, entries, current, args[i..], Scan(depth, quote, escaped))
                == Pieces(ARGUMENT_OBJECT, args, START)
    {
      var c := args[i];
      ResumeStep(ARGUMENT_OBJECT, entries, current, args[i..], Scan(depth, quote, escaped));
      assert args[i..][1..] == args[i + 1..];
      i := i + 1;
      if quote.Some? {
        current := current + [c];
        if escaped {
          escaped := false;
        } else if c == '\\' {
          escaped := true;
        } else if c == quote.value {
          quote := None;
        }
        continue;
      }
      if c in ARGUMENT_OBJECT.quotes {
        quote := Some(c);
      } else if c in ARGUMENT_OBJECT.openers {
        depth := depth + 1;
      } else if c in ARGUMENT_OBJECT.closers {
        depth := depth - 1;
      } else if c == ',' && depth == 0 {
        entries := entries + [current];
        current := "";
        continue;
      }
      current := current + [c];
    }
    ResumeEnd(ARGUMENT_OBJECT, entries, current, Scan(depth, quote, escaped));
    entries := entries + [current];
  }

  // ---------------------------------------------------------------- what protects a comma

  lemma {:induction false} ScanJoin(g: Grammar, a: string, b: string, s: Scan)
    ensures ScanThrough(g, a + b, s) == ScanThrough(g, b, ScanThrough(g, a, s))
    ensures CommaFree(g, a + b, s) <==> CommaFree(g, a, s) && CommaFree(g, b, ScanThrough(g, a, s))
    decreases |a|
  {
    if a == "" {
      assert a + b == b;
    } else {
      assert (a + b)[1..] == a[1..] + b;
      ScanJoin(g, a[1..], b, Next(g, s, a[0]));
    }
  }

  lemma {:induction false} EscapedStaysQuoted(g: Grammar, text: string, q: char, s: Scan)
    requires s.quote == Some(q) && !s.escaped && q != '\\'
    ensures ScanThrough(g, Escaped(text, q), s) == s && CommaFree(g, Escaped(text, q), s)
    decreases |text|
  {
    if text != "" {
      EscapedStaysQuoted(g, text[1..], q, s);
      ScanJoin(g, EscapedChar(text[0], q), Escaped(text[1..], q), s);
      EscapedCharStaysQuoted(g, text[0], q, s);
    }
  }

  lemma EscapedCharStaysQuoted(g: Grammar, c: char, q: char, s: Scan)
    requires s.quote == Some(q) && !s.escaped && q != '\\'
    ensures ScanThrough(g, EscapedChar(c, q), s) == s && CommaFree(g, EscapedChar(c, q), s)
  {
    var written := EscapedChar(c, q);
    assert written[|written| - 1..] == [c] && [c][1..] == "";
    assert ScanThrough(g, [c], if |written| == 2 then Next(g, s, '\\') else s) == s;
  }

  /** A quoted text is one piece, whatever it holds: any of the three quotes, any text between them with
      its quotes and backslashes escaped. */
  lemma QuotedIsClosed(text: string, q: char)
    requires q == '"' || q == '\'' || q == '`'
    ensures Closed(ARGUMENT_OBJECT, [q] + Escaped(text, q) + [q])
  {
    var g, inside := ARGUMENT_OBJECT, Scan(0, Some(q), false);
    EscapedStaysQuoted(g, text, q, inside);
    ScanJoin(g, Escaped(text, q), [q], inside);
    assert [q][1..] == "" && Next(g, inside, q) == START && Next(g, START, q) == inside;
    assert ScanThrough(g, [q], inside) == START;
    ScanJoin(g, [q], Escaped(text, q) + [q], START);
    assert ScanThrough(g, [q], START) == inside;
    assert [q] + Escaped(text, q) + [q] == [q] + (Escaped(text, q) + [q]);
  }

  /** The scan of `text` never closes a bracket it did not open. */
  predicate NeverBelow(g: Grammar, text: string, s: Scan)
    decreases |text|
  {
    s.depth >= 0 && (text == "" || NeverBelow(g, text[1..], Next(g, s, text[0])))
  }

  lemma {:induction false} OneDeeper(g: Grammar, text: string, s: Scan)
    requires NeverBelow(g, text, s)
    ensures CommaFree(g, text, s.(depth := s.depth + 1)) && NeverBelow(g, text, s.(depth := s.depth + 1))
    ensures ScanThrough(g, text, s.(depth := s.depth + 1)) ==
            ScanThrough(g, text, s).(depth := ScanThrough(g, text, s).depth + 1)
    decreases |text|
  {
    if text != "" {
      OneDeeper(g, text[1..], Next(g, s, text[0]));
      assert Next(g, s.(depth := s.depth + 1), text[0]) ==
             Next(g, s, text[0]).(depth := Next(g, s, text[0]).depth + 1);
    }
  }

  lemma {:induction false} NeverBelowJoin(g: Grammar, a: string, b: string, s: Scan)
    requires NeverBelow(g, a, s)
    ensures NeverBelow(g, a + b, s) <==> NeverBelow(g, b, ScanThrough(g, a, s))
    decreases |a|
  {
    if a == "" {
      assert a + b == b;
    } else {
      assert (a + b)[1..] == a[1..] + b;
      NeverBelowJoin(g, a[1..], b, Next(g, s, a[0]));
    }
  }

  /** An empty text, and two texts after one another, never close what they did not open. */
  lemma NeverBelowGrows(g: Grammar, a: string, b: string)
    requires NeverBelow(g, a, START) && ScanThrough(g, a, START) == START && NeverBelow(g, b, START)
    ensures NeverBelow(g, "", START) && NeverBelow(g, a + b, START)
    ensures ScanThrough(g, a + b, START) == ScanThrough(g, b, START)
  {
    NeverBelowJoin(g, a, b, START);
    ScanJoin(g, a, b, START);
  }

  lemma ClosedBetween(g: Grammar, open: char, text: string, close: char)
    requires Next(g, START, open) == Scan(1, None, false) && Next(g, Scan(1, None, false), close) == START
    requires open != ',' && close != ','
    requires NeverBelow(g, text, START) && ScanThrough(g, text, START) == START
    ensures Closed(g, [open] + (text + [close])) && NeverBelow(g, [open] + (text + [close]), START)
  {
    var inside := Scan(1, None, false);
    OneDeeper(g, text, START);
    NeverBelowJoin(g, text, [close], inside);
    assert ([open] + (text + [close]))[1..] == text + [close];
    assert [close][1..] == "" && [open][1..] == "";
    ScanJoin(g, text, [close], inside);
    ScanJoin(g, [open], text + [close], START);
  }

  lemma RoundPair()
    ensures Next(ARGUMENT_OBJECT, START, '(') == Scan(1, None, false)
    ensures Next(ARGUMENT_OBJECT, Scan(1, None, false), ')') == START
  {
    assert ARGUMENT_OBJECT.openers[0] == '(' && ARGUMENT_OBJECT.closers[0] == ')';
  }

  lemma SquarePair()
    ensures Next(ARGUMENT_OBJECT, START, '[') == Scan(1, None, false)
    ensures Next(ARGUMENT_OBJECT, Scan(1, None, false), ']') == START
  {
    assert ARGUMENT_OBJECT.openers[1] == '[' && ARGUMENT_OBJECT.closers[1] == ']';
  }

  lemma CurlyPair()
    ensures Next(ARGUMENT_OBJECT, START, '{') == Scan(1, None, false)
    ensures Next(ARGUMENT_OBJECT, Scan(1, None, false), '}') == START
  {
    assert ARGUMENT_OBJECT.openers[2] == '{' && ARGUMENT_OBJECT.closers[2] == '}';
  }

  /** A bracketed text is one piece, commas and all, when what it holds closes all it opens: any of the
      three kinds of brackets in an argument object. */
  lemma BracketedIsClosed(text: string)
    requires NeverBelow(ARGUMENT_OBJECT, text, START) && ScanThrough(ARGUMENT_OBJECT, text, START) == START
    ensures Closed(ARGUMENT_OBJECT, ['('] + (text + [')']))
    ensures Closed(ARGUMENT_OBJECT, ['['] + (text + [']']))
    ensures Closed(ARGUMENT_OBJECT, ['{'] + (text + ['}']))
  {
    RoundPair();
    ClosedBetween(ARGUMENT_OBJECT, '(', text, ')');
    SquarePair();
    ClosedBetween(ARGUMENT_OBJECT, '[', text, ']');
    CurlyPair();
    ClosedBetween(ARGUMENT_OBJECT, '{', text, '}');
  }

  /** And parentheses in a CSS value. */
  lemma ParenthesizedIsClosed(text: string)
    requires NeverBelow(CSS_VALUE, text, START) && ScanThrough(CSS_VALUE, text, START) == START
    ensures Closed(CSS_VALUE, ['('] + (text + [')']))
  {
    ClosedBetween(CSS_VALUE, '(', text, ')');
  }

  lemma {:induction false} OrdinaryIsClosed(g: Grammar, text: string)
    requires forall c :: c in text ==> c != ',' && c !in g.openers && c !in g.closers && c !in g.quotes
    ensures Closed(g, text)
    decreases |text|
  {
    if text != "" {
      assert forall c :: c in text[1..] ==> c in text;
      OrdinaryIsClosed(g, text[1..]);
      assert Next(g, START, text[0]) == START;
    }
  }

  /** No other character nests or quotes: a text without the comma and these is one piece. */
  lemma PlainIsClosed(text: string)
    ensures (forall c :: c in text ==> c !in ",()") ==> Closed(CSS_VALUE, text)
    ensures (forall c :: c in text ==> c !in ",()[]{}\"'`") ==> Closed(ARGUMENT_OBJECT, text)
  {
    if forall c :: c in text ==> c !in ",()" {
      OrdinaryIsClosed(CSS_VALUE, text);
    }
    if forall c :: c in text ==> c !in ",()[]{}\"'`" {
      OrdinaryIsClosed(ARGUMENT_OBJECT, text);
    }
  }

  /** And the comma after a closed text splits. */
  lemma CommaSplits(g: Grammar, head: string, tail: string)
    requires Closed(g, head)
    ensures Pieces(g, head + [','] + tail, START) == [head] + Pieces(g, tail, START)
  {
    PiecesOfClosed(g, head, tail, START);
  }
}
