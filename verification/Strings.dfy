/** The few `str` operations the repository's parsers lean on. */
module Strings {
  /** The ASCII characters `str.isspace` accepts. */
  predicate IsSpace(c: char) {
    c == ' ' || '\t' <= c <= '\r' || '\U{1C}' <= c <= '\U{1F}'
  }

  function StripLeft(text: string): string {
    if text != "" && IsSpace(text[0]) then StripLeft(text[1..]) else text
  }

  function StripRight(text: string): string {
    if text != "" && IsSpace(text[|text| - 1]) then StripRight(text[..|text| - 1]) else text
  }

  /** `text.strip()` */
  function Strip(text: string): string {
    StripRight(StripLeft(text))
  }

  predicate Trimmed(text: string) {
    text == "" || (!IsSpace(text[0]) && !IsSpace(text[|text| - 1]))
  }

  /** `sep.join(parts)` for a one-character separator. */
  function Join(parts: seq<string>, sep: char): string {
    if parts == [] then ""
    else if |parts| == 1 then parts[0]
    else parts[0] + [sep] + Join(parts[1..], sep)
  }

  /** `text.split(sep)` for a one-character separator. */
  function Split(text: string, sep: char): (parts: seq<string>)
    ensures |parts| > 0
    decreases |text|
  {
    if text == "" then [""]
    else if text[0] == sep then [""] + Split(text[1..], sep)
    else
      var rest := Split(text[1..], sep);
      [[text[0]] + rest[0]] + rest[1..]
  }

  /** The head and tail of `text.partition(sep)`; the tail is "" when there is no separator. */
  function Partition(text: string, sep: char): (string, string)
    decreases |text|
  {
    if text == "" then ("", "")
    else if text[0] == sep then ("", text[1..])
    else
      var (head, tail) := Partition(text[1..], sep);
      ([text[0]] + head, tail)
  }

  lemma {:induction false} SplitSkipsOther(head: string, tail: string, sep: char)
    requires sep !in head
    ensures Split(head + [sep] + tail, sep) == [head] + Split(tail, sep)
    ensures Split(head, sep) == [head]
  {
    if head == "" {
      assert (head + [sep] + tail)[1..] == tail;
    } else {
      assert (head + [sep] + tail)[1..] == head[1..] + [sep] + tail;
      SplitSkipsOther(head[1..], tail, sep);
      assert [head[0]] + head[1..] == head;
    }
  }

  lemma {:induction false} SplitOfJoin(parts: seq<string>, sep: char)
    requires parts != [] && forall i :: 0 <= i < |parts| ==> sep !in parts[i]
    ensures Split(Join(parts, sep), sep) == parts
  {
    if |parts| == 1 {
      SplitSkipsOther(parts[0], "", sep);
    } else {
      SplitOfJoin(parts[1..], sep);
      SplitSkipsOther(parts[0], Join(parts[1..], sep), sep);
    }
  }

  lemma {:induction false} PartitionAt(head: string, tail: string, sep: char)
    requires sep !in head
    ensures Partition(head + [sep] + tail, sep) == (head, tail)
    ensures Partition(head, sep) == (head, "")
  {
    if head == "" {
      assert (head + [sep] + tail)[1..] == tail;
    } else {
      assert (head + [sep] + tail)[1..] == head[1..] + [sep] + tail;
      PartitionAt(head[1..], tail, sep);
      assert [head[0]] + head[1..] == head;
    }
  }

  lemma {:induction false} StripLeftCuts(text: string)
    ensures var n := |text| - |StripLeft(text)|; 0 <= n && StripLeft(text) == text[n..]
    ensures StripLeft(text) != "" ==> !IsSpace(StripLeft(text)[0])
  {
    if text != "" && IsSpace(text[0]) {
      StripLeftCuts(text[1..]);
    }
  }

  lemma {:induction false} StripRightCuts(text: string)
    ensures var n := |StripRight(text)|; n <= |text| && StripRight(text) == text[..n]
    ensures StripRight(text) != "" ==> !IsSpace(StripRight(text)[|StripRight(text)| - 1])
  {
    if text != "" && IsSpace(text[|text| - 1]) {
      StripRightCuts(text[..|text| - 1]);
    }
  }

  /** Stripping cuts a trimmed piece out of the text, and is the identity exactly on trimmed texts. */
  lemma StripCuts(text: string)
    ensures Trimmed(Strip(text)) && |Strip(text)| <= |text|
    ensures forall c :: c in Strip(text) ==> c in text
    ensures Strip(text) == text <==> Trimmed(text)
  {
    StripLeftCuts(text);
    StripRightCuts(StripLeft(text));
  }

  /** Blank, tab, line feed, vertical tab, form feed, carriage return and the four separators. */
  lemma BlankCharacters(c: char)
    ensures IsSpace(c) <==> c in " \t\n\U{0B}\U{0C}\r\U{1C}\U{1D}\U{1E}\U{1F}"
  {
  }

  function EscapedChar(c: char, q: char): string {
    if c == q || c == '\\' then ['\\', c] else [c]
  }

  /** `text` written between quotes `q`: a backslash before every quote and every backslash. */
  function Escaped(text: string, q: char): string {
    if text == "" then "" else EscapedChar(text[0], q) + Escaped(text[1..], q)
  }

  lemma Regroup(a: string, b: string, c: string)
    ensures (a + b) + c == a + (b + c)
  {
  }
}
