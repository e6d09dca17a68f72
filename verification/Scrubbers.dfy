/** Two scans that rewrite a text before it is measured: Python comments blanked, resolved CSS calls
    replaced by a space. */
module Scrubbers {
  import opened Options
  import opened Strings

  // ---------------------------------------------------------------- Python comments

  function Spaces(n: nat): (s: string)
    ensures |s| == n && forall i :: 0 <= i < n ==> s[i] == ' '
  {
    if n == 0 then "" else " " + Spaces(n - 1)
  }

  /** Distance to the next line break, or to the end. */
  function LineEnd(text: string): (n: nat)
    ensures n <= |text| && (n < |text| ==> text[n] == '\n') && forall i :: 0 <= i < n ==> text[i] != '\n'
  {
    if text == "" || text[0] == '\n' then 0 else 1 + LineEnd(text[1..])
  }

  /** `source` from a point where `quote` is open (if any), comments replaced by spaces. */
  function Blanked(source: string, quote: Option<char>): string
    decreases |source|
  {
    if source == "" then ""
    else
      var c := source[0];
      if quote.Some? then
        if c == '\\' && |source| > 1 then source[..2] + Blanked(source[2..], quote)
        else [c] + Blanked(source[1..], if c == quote.value then None else quote)
      else if c == '\'' || c == '"' then [c] + Blanked(source[1..], Some(c))
      else if c == '#' then
        var end := LineEnd(source);
        Spaces(end) + Blanked(source[end..], None)
      else [c] + Blanked(source[1..], None)
  }

  /** The scan's position moves by `n` characters, `chunk` being what it writes for them. */
  lemma BlankedMoves(
      kept: string, source: string, index: nat, n: nat, chunk: string, quote: Option<char>, next: Option<char>)
    requires index + n <= |source|
    requires Blanked(source[index..], quote) == chunk + Blanked(source[index..][n..], next)
    ensures kept + Blanked(source[index..], quote) == (kept + chunk) + Blanked(source[index + n..], next)
  {
    assert source[index..][n..] == source[index + n..];
    assert kept + (chunk + Blanked(source[index + n..], next)) == (kept + chunk) + Blanked(source[index + n..], next);
  }

  method WithoutPythonComments(source: string) returns (kept: string)
    ensures kept == Blanked(source, None)
  {
    kept := "";
    var quote := None;
    var index := 0;
    while index < |source|
      invariant 0 <= index <= |source|
      invariant kept + Blanked(source[index..], quote) == Blanked(source, None)
    {
      var c := source[index];
      ghost var was := quote;
      if quote.Some? {
        if c == '\\' && index + 1 < |source| {
          assert source[index..][..2] == [c, source[index + 1]];
          BlankedMoves(kept, source, index, 2, [c, source[index + 1]], quote, quote);
          kept := kept + [c, source[index + 1]];
          index := index + 2;
          continue;
        }
        if c == quote.value {
          quote := None;
        }
      } else if c == '\'' || c == '"' {
        quote := Some(c);
      } else if c == '#' {
        var end := LineEnd(source[index..]);
        BlankedMoves(kept, source, index, end, Spaces(end), quote, None);
        kept := kept + Spaces(end);
        index := index + end;
        continue;
      }
      BlankedMoves(kept, source, index, 1, [c], was, quote);
      kept := kept + [c];
      index := index + 1;
    }
  }

  /** `a` and `b` are aligned: same length, and where they differ a character that is not a line break
      became a space. */
  ghost predicate Aligned(a: string, b: string) {
    |a| == |b| && forall i :: 0 <= i < |a| ==> b[i] == a[i] || (b[i] == ' ' && a[i] != '\n')
  }

  lemma AlignedJoin(a: string, b: string, c: string, d: string)
    requires Aligned(a, b) && Aligned(c, d)
    ensures Aligned(a + c, b + d)
  {
  }

  /** Length and line breaks are kept, so a position still maps to its line. */
  lemma {:induction false} BlankingKeepsPositions(source: string, quote: Option<char>)
    ensures Aligned(source, Blanked(source, quote))
    decreases |source|
  {
    if source != "" {
      var c := source[0];
      if quote.None? && c == '#' {
        var end := LineEnd(source);
        BlankingKeepsPositions(source[end..], None);
        AlignedJoin(source[..end], Spaces(end), source[end..], Blanked(source[end..], None));
        assert source[..end] + source[end..] == source;
      } else if quote.Some? && c == '\\' && |source| > 1 {
        BlankingKeepsPositions(source[2..], quote);
        AlignedJoin(source[..2], source[..2], source[2..], Blanked(source[2..], quote));
        assert source[..2] + source[2..] == source;
      } else {
        var next := if quote.Some? then (if c == quote.value then None else quote)
                    else if c == '\'' || c == '"' then Some(c) else None;
        BlankingKeepsPositions(source[1..], next);
        AlignedJoin([c], [c], source[1..], Blanked(source[1..], next));
        assert [c] + source[1..] == source;
      }
    }
  }

  lemma {:induction false} BlankedSpaces(n: nat, tail: string)
    ensures Blanked(Spaces(n) + tail, None) == Spaces(n) + Blanked(tail, None)
  {
    if n == 0 {
      assert Spaces(0) + tail == tail;
    } else {
      var text := Spaces(n) + tail;
      assert text[0] == ' ' && text[1..] == Spaces(n - 1) + tail;
      BlankedSpaces(n - 1, tail);
    }
  }

  /** A second pass changes nothing: no comment is left, and no string was touched. */
  lemma {:induction false} BlankingIsIdempotent(source: string, quote: Option<char>)
    ensures Blanked(Blanked(source, quote), quote) == Blanked(source, quote)
    decreases |source|
  {
    if source != "" {
      var c := source[0];
      var once := Blanked(source, quote);
      if quote.None? && c == '#' {
        var end := LineEnd(source);
        BlankingIsIdempotent(source[end..], None);
        BlankedSpaces(end, Blanked(source[end..], None));
      } else if quote.Some? && c == '\\' && |source| > 1 {
        BlankingIsIdempotent(source[2..], quote);
        assert once[..2] == source[..2] && once[2..] == Blanked(source[2..], quote);
        assert once[0] == '\\' && |once| > 1;
      } else {
        var next := if quote.Some? then (if c == quote.value then None else quote)
                    else if c == '\'' || c == '"' then Some(c) else None;
        BlankingIsIdempotent(source[1..], next);
        BlankingKeepsPositions(source[1..], next);
        assert once[0] == c && once[1..] == Blanked(source[1..], next);
      }
    }
  }

  // ---------------------------------------------------------------- resolved CSS calls

  predicate StartsWith(text: string, prefix: string) {
    |prefix| <= |text| && text[..|prefix|] == prefix
  }

  /** `var(` or `env(` at the start of `text`, not glued to the word before it.  `word` is the class
      of characters a head may not follow. */
  predicate HeadAt(word: char -> bool, text: string, previous: Option<char>) {
    (previous.None? || !word(previous.value)) && (StartsWith(text, "var(") || StartsWith(text, "env("))
  }

  /** What follows the parenthesis that closes the `depth` open ones, or the end of `text`. */
  function AfterCall(text: string, depth: nat): (rest: string)
    ensures |rest| <= |text|
  {
    if text == "" || depth == 0 then text
    else AfterCall(text[1..], if text[0] == '(' then depth + 1 else if text[0] == ')' then depth - 1 else depth)
  }

  /** `text` with every resolved call, fallbacks included, replaced by a space; `previous` is the
      character before it in the value.  A call is left at its closing parenthesis. */
  function Scrubbed(word: char -> bool, text: string, previous: Option<char>): string
    decreases |text|
  {
    if text == "" then ""
    else if HeadAt(word, text, previous) then " " + Scrubbed(word, AfterCall(text[4..], 1), Some(')'))
    else [text[0]] + Scrubbed(word, text[1..], Some(text[0]))
  }

  function Previous(value: string, index: nat): Option<char>
    requires index <= |value|
  {
    if index == 0 then None else Some(value[index - 1])
  }

  /** The inner loop: from just after a call's head to just after its closing parenthesis. */
  method SkipCall(value: string, start: nat) returns (cursor: nat)
    requires start <= |value|
    ensures start <= cursor <= |value| && value[cursor..] == AfterCall(value[start..], 1)
    ensures cursor < |value| ==> cursor > start && value[cursor - 1] == ')'
  {
    var depth := 1;
    cursor := start;
    while cursor < |value| && depth > 0
      invariant start <= cursor <= |value| && depth >= 0
      invariant AfterCall(value[cursor..], depth) == AfterCall(value[start..], 1)
      invariant depth == 0 ==> cursor > start && value[cursor - 1] == ')'
    {
      assert value[cursor..][1..] == value[cursor + 1..];
      if value[cursor] == '(' {
        depth := depth + 1;
      } else if value[cursor] == ')' {
        depth := depth - 1;
      }
      cursor := cursor + 1;
    }
  }

  /** The scan moves from `index` to `next`, `chunk` being what it writes for what lies between. */
  lemma ScrubbedMoves(word: char -> bool, kept: string, value: string, index: nat, next: nat, chunk: string)
    requires index < next <= |value|
    requires Scrubbed(word, value[index..], Previous(value, index))
             == chunk + Scrubbed(word, value[next..], Previous(value, next))
    ensures kept + Scrubbed(word, value[index..], Previous(value, index)) ==
            (kept + chunk) + Scrubbed(word, value[next..], Previous(value, next))
  {
  }

  method WithoutResolvedFunctions(word: char -> bool, value: string) returns (kept: string)
    ensures kept == Scrubbed(word, value, None)
  {
    kept := "";
    var index := 0;
    while index < |value|
      invariant 0 <= index <= |value|
      invariant kept + Scrubbed(word, value[index..], Previous(value, index)) == Scrubbed(word, value, None)
      decreases |value| - index
    {
      if !HeadAt(word, value[index..], Previous(value, index)) {
        assert value[index..][1..] == value[index + 1..];
        ScrubbedMoves(word, kept, value, index, index + 1, [value[index]]);
        kept := kept + [value[index]];
        index := index + 1;
      } else {
        assert value[index..][4..] == value[index + 4..];
        var cursor := SkipCall(value, index + 4);
        ScrubbedMoves(word, kept, value, index, cursor, " ");
        kept := kept + " ";
        index := cursor;
      }
    }
  }

  /** No resolved call starts anywhere in `text`. */
  predicate NoHead(word: char -> bool, text: string, previous: Option<char>)
    decreases |text|
  {
    text == "" || (!HeadAt(word, text, previous) && NoHead(word, text[1..], Some(text[0])))
  }

  /** A space-free prefix of the scrubbed text was already there, in one piece. */
  lemma {:induction false} PrefixWasThere(word: char -> bool, text: string, previous: Option<char>, prefix: string)
    requires StartsWith(Scrubbed(word, text, previous), prefix) && ' ' !in prefix
    ensures StartsWith(text, prefix)
    decreases |text|
  {
    if prefix != "" {
      var out := Scrubbed(word, text, previous);
      assert out[0] == prefix[0];
      assert !HeadAt(word, text, previous);
      assert out[1..] == Scrubbed(word, text[1..], Some(text[0]));
      assert out[1..][..|prefix| - 1] == out[..|prefix|][1..];
      PrefixWasThere(word, text[1..], Some(text[0]), prefix[1..]);
      assert text[..|prefix|] == [text[0]] + text[1..][..|prefix| - 1];
    }
  }

  lemma SpaceIsNoHead(text: string)
    requires text != "" && text[0] == ' '
    ensures !StartsWith(text, "var(") && !StartsWith(text, "env(")
  {
    if |text| >= 4 {
      assert text[..4][0] == ' ';
    }
  }

  predicate SameSide(word: char -> bool, a: Option<char>, b: Option<char>) {
    (a.Some? && word(a.value)) <==> (b.Some? && word(b.value))
  }

  /** The scrubbed text holds no call: none survives, and dropping one never forms another. */
  lemma {:induction false} ScrubbedHasNoHead(
      word: char -> bool, text: string, previous: Option<char>, before: Option<char>)
    requires !word(' ') && !word(')') && SameSide(word, previous, before)
    ensures NoHead(word, Scrubbed(word, text, previous), before)
    decreases |text|
  {
    if text != "" {
      var out := Scrubbed(word, text, previous);
      if HeadAt(word, text, previous) {
        var rest := AfterCall(text[4..], 1);
        ScrubbedHasNoHead(word, rest, Some(')'), Some(' '));
        assert out[1..] == Scrubbed(word, rest, Some(')'));
        assert out[0] == ' ';
        SpaceIsNoHead(out);
      } else {
        ScrubbedHasNoHead(word, text[1..], Some(text[0]), Some(text[0]));
        assert out[1..] == Scrubbed(word, text[1..], Some(text[0]));
        if StartsWith(out, "var(") {
          PrefixWasThere(word, text, previous, "var(");
        }
        if StartsWith(out, "env(") {
          PrefixWasThere(word, text, previous, "env(");
        }
      }
    }
  }

  lemma {:induction false} NothingToScrub(word: char -> bool, text: string, previous: Option<char>)
    requires NoHead(word, text, previous)
    ensures Scrubbed(word, text, previous) == text
    decreases |text|
  {
    if text != "" {
      NothingToScrub(word, text[1..], Some(text[0]));
      assert [text[0]] + text[1..] == text;
    }
  }

  /** A second pass changes nothing. */
  lemma ScrubbingIsIdempotent(word: char -> bool, value: string)
    requires !word(' ') && !word(')')
    ensures Scrubbed(word, Scrubbed(word, value, None), None) == Scrubbed(word, value, None)
  {
    ScrubbedHasNoHead(word, value, None, None);
    NothingToScrub(word, Scrubbed(word, value, None), None);
  }

  // ---------------------------------------------------------------- what is a comment, what is a call

  lemma {:induction false} LineEndAt(text: string, rest: string)
    requires '\n' !in text && (rest == "" || rest[0] == '\n')
    ensures LineEnd(text + rest) == |text|
    decreases |text|
  {
    if text == "" {
      assert text + rest == rest;
    } else {
      assert text[0] in text && (text + rest)[1..] == text[1..] + rest;
      LineEndAt(text[1..], rest);
    }
  }

  lemma CommentAtStart(comment: string, rest: string)
    requires '\n' !in comment && (rest == "" || rest[0] == '\n')
    ensures Blanked(("#" + comment) + rest, None) == Spaces(|comment| + 1) + Blanked(rest, None)
  {
    var source := ("#" + comment) + rest;
    LineEndAt("#" + comment, rest);
    assert source[|comment| + 1..] == rest;
  }

  lemma {:induction false} CodeIsKept(code: string, tail: string)
    requires forall c :: c in code ==> c != '#' && c != '\'' && c != '"'
    ensures Blanked(code + tail, None) == code + Blanked(tail, None)
    decreases |code|
  {
    if code == "" {
      assert code + tail == tail && code + Blanked(tail, None) == Blanked(tail, None);
    } else {
      assert code[0] in code && forall c :: c in code[1..] ==> c in code;
      assert (code + tail)[1..] == code[1..] + tail;
      CodeIsKept(code[1..], tail);
      Regroup([code[0]], code[1..], Blanked(tail, None));
      assert [code[0]] + code[1..] == code;
    }
  }

  /** A comment is what follows a `#` outside strings, up to the end of its line: it becomes spaces, and
      nothing before or after it does. */
  lemma CommentIsBlanked(code: string, comment: string, rest: string)
    requires forall c :: c in code ==> c != '#' && c != '\'' && c != '"'
    requires '\n' !in comment && (rest == "" || rest[0] == '\n')
    ensures Blanked(code + (("#" + comment) + rest), None) == code + (Spaces(|comment| + 1) + Blanked(rest, None))
  {
    CodeIsKept(code, ("#" + comment) + rest);
    CommentAtStart(comment, rest);
  }

  lemma EscapedCharIsKept(c: char, q: char, tail: string)
    requires q != '\\'
    ensures Blanked(EscapedChar(c, q) + tail, Some(q)) == EscapedChar(c, q) + Blanked(tail, Some(q))
  {
    var written := EscapedChar(c, q);
    var source := written + tail;
    assert source[..|written|] == written && source[|written|..] == tail;
  }

  lemma {:induction false} EscapedIsKept(text: string, q: char, rest: string)
    requires q != '\\'
    ensures Blanked(Escaped(text, q) + ([q] + rest), Some(q)) == Escaped(text, q) + ([q] + Blanked(rest, None))
    decreases |text|
  {
    if text == "" {
      assert "" + ([q] + rest) == [q] + rest && ([q] + rest)[1..] == rest;
      assert "" + ([q] + Blanked(rest, None)) == [q] + Blanked(rest, None);
    } else {
      var more := Escaped(text[1..], q);
      EscapedIsKept(text[1..], q, rest);
      EscapedCharIsKept(text[0], q, more + ([q] + rest));
      Regroup(EscapedChar(text[0], q), more, [q] + rest);
      Regroup(EscapedChar(text[0], q), more, [q] + Blanked(rest, None));
    }
  }

  /** A string is kept whole, whatever it holds: either quote, any text between them with its quotes and
      backslashes escaped. */
  lemma StringIsKept(text: string, q: char, rest: string)
    requires q == '\'' || q == '"'
    ensures Blanked([q] + (Escaped(text, q) + ([q] + rest)), None)
            == [q] + (Escaped(text, q) + ([q] + Blanked(rest, None)))
  {
    var source := [q] + (Escaped(text, q) + ([q] + rest));
    assert source[1..] == Escaped(text, q) + ([q] + rest);
    EscapedIsKept(text, q, rest);
  }

  /** Parentheses opened less those closed. */
  function Level(text: string): int {
    if text == "" then 0
    else (if text[0] == '(' then 1 else if text[0] == ')' then -1 else 0) + Level(text[1..])
  }

  /** Every parenthesis in `text` has its partner in it. */
  predicate Balanced(text: string) {
    Level(text) == 0 && forall i :: 0 <= i <= |text| ==> Level(text[..i]) >= 0
  }

  lemma {:induction false} AfterCallMoves(text: string, tail: string, depth: nat)
    requires forall i :: 0 <= i <= |text| ==> depth + Level(text[..i]) >= 1
    ensures depth + Level(text) >= 1 && AfterCall(text + tail, depth) == AfterCall(tail, depth + Level(text))
    decreases |text|
  {
    assert text[..|text|] == text;
    if text == "" {
      assert text + tail == tail;
    } else {
      assert text[..0] == "" && (text + tail)[1..] == text[1..] + tail;
      var step := if text[0] == '(' then 1 else if text[0] == ')' then -1 else 0;
      forall i | 0 <= i <= |text[1..]|
        ensures depth + step + Level(text[1..][..i]) >= 1
      {
        assert text[..i + 1][1..] == text[1..][..i];
      }
      assert text[1..][..0] == "";
      AfterCallMoves(text[1..], tail, depth + step);
    }
  }

  /** A call ends at the parenthesis that matches its own, calls nested in it included. */
  lemma CallEnds(inside: string, rest: string)
    requires Balanced(inside)
    ensures AfterCall(inside + (")" + rest), 1) == rest
  {
    AfterCallMoves(inside, ")" + rest, 1);
    assert (")" + rest)[1..] == rest;
  }

  /** Both resolved functions go, argument, fallback and all, and leave one space. */
  lemma CallIsScrubbed(word: char -> bool, head: string, inside: string, rest: string, previous: Option<char>)
    requires (head == "var(" || head == "env(") && Balanced(inside)
    requires previous.None? || !word(previous.value)
    ensures Scrubbed(word, head + (inside + (")" + rest)), previous) == " " + Scrubbed(word, rest, Some(')'))
  {
    var text := head + (inside + (")" + rest));
    assert text[..4] == head && text[4..] == inside + (")" + rest);
    CallEnds(inside, rest);
  }

  /** A call that is never closed takes the rest of the text with it. */
  lemma UnclosedCallIsScrubbed(word: char -> bool, head: string, inside: string, previous: Option<char>)
    requires head == "var(" || head == "env("
    requires forall i :: 0 <= i <= |inside| ==> Level(inside[..i]) >= 0
    requires previous.None? || !word(previous.value)
    ensures Scrubbed(word, head + inside, previous) == " "
  {
    assert (head + inside)[..4] == head && (head + inside)[4..] == inside;
    AfterCallMoves(inside, "", 1);
    assert inside + "" == inside;
  }

  lemma {:induction false} LevelJoin(a: string, b: string)
    ensures Level(a + b) == Level(a) + Level(b)
    decreases |a|
  {
    if a == "" {
      assert a + b == b;
    } else {
      assert (a + b)[1..] == a[1..] + b;
      LevelJoin(a[1..], b);
    }
  }

  lemma {:induction false} PlainIsLevel(text: string)
    requires '(' !in text && ')' !in text
    ensures Level(text) == 0
    decreases |text|
  {
    if text != "" {
      assert text[0] in text && forall c :: c in text[1..] ==> c in text;
      PlainIsLevel(text[1..]);
    }
  }

  /** What is balanced: a text without parentheses, a balanced text in parentheses, and two balanced
      texts after one another. */
  lemma PlainIsBalanced(text: string)
    requires '(' !in text && ')' !in text
    ensures Balanced(text)
  {
    PlainIsLevel(text);
    forall i | 0 <= i <= |text|
      ensures Level(text[..i]) >= 0
    {
      PlainIsLevel(text[..i]);
    }
  }

  lemma JoinIsBalanced(a: string, b: string)
    requires Balanced(a) && Balanced(b)
    ensures Balanced(a + b)
  {
    LevelJoin(a, b);
    forall i | 0 <= i <= |a + b|
      ensures Level((a + b)[..i]) >= 0
    {
      if i <= |a| {
        assert (a + b)[..i] == a[..i];
      } else {
        assert (a + b)[..i] == a + b[..i - |a|];
        LevelJoin(a, b[..i - |a|]);
      }
    }
  }

  lemma CallIsBalanced(text: string)
    requires Balanced(text)
    ensures Balanced("(" + (text + ")"))
  {
    var call := "(" + (text + ")");
    assert ")"[1..] == "" && Level(")") == -1;
    LevelJoin(text, ")");
    assert call[1..] == text + ")";
    forall i | 0 <= i <= |call|
      ensures Level(call[..i]) >= 0
    {
      if 0 < i <= |text| + 1 {
        assert call[..i][1..] == text[..i - 1];
      } else if i == |text| + 2 {
        assert call[..i] == call;
      }
    }
  }
}
